/**
  Display scaling (`getDisplayScaling` in server-control/src/screen-utils.ts).

  The main display's entry in the `system_profiler SPDisplaysDataType`
  report carries a logical resolution string (`_spdisplays_resolution`,
  e.g. "1440 x 900 @ 60.00Hz") and a pixel resolution string
  (`_spdisplays_pixels`, e.g. "2880 x 1800"). The scale per axis is the
  first `N x M` of the pixel string over the first `N x M` of the logical
  string. Every failure falls back to the identity scale; nothing is raised.

  A scale is kept as the exact pair (physical, logical) instead of the
  source's floating-point quotient.
*/
module DisplayScaling {
  import opened Base
  import opened Text

  /** One entry of `spdisplays_ndrvs`; an absent property is `None`. */
  datatype ProfilerDisplay = ProfilerDisplay(
    mainFlag: Option<string>,    // spdisplays_main
    resolution: Option<string>,  // _spdisplays_resolution (logical)
    pixels: Option<string>       // _spdisplays_pixels (physical)
  )

  /**
    What the display query yields: the display entries, or `None` when
    running the profiler, parsing its JSON or reaching
    `SPDisplaysDataType[0].spdisplays_ndrvs` throws.
  */
  type ProfilerReport = Option<seq<ProfilerDisplay>>

  const MainFlagValue: string := "spdisplays_yes"

  predicate IsMainProfilerDisplay(d: ProfilerDisplay) {
    d.mainFlag == Some(MainFlagValue)
  }

  /** The ratio `physical / logical`, kept exact. */
  datatype Ratio = Ratio(physical: nat, logical: nat)

  /** Physical pixels per logical point, per axis. */
  datatype Scaling = Scaling(x: Ratio, y: Ratio)

  /** `{ scaleX: 1, scaleY: 1 }`, the fallback. */
  const Identity: Scaling := Scaling(Ratio(1, 1), Ratio(1, 1))

  /** The two digit groups of `/(\d+) x (\d+)/`. */
  datatype Dimensions = Dimensions(first: string, second: string)

  /** `first x second` as it appears in the text. */
  function Render(d: Dimensions): string {
    d.first + " x " + d.second
  }

  /**
    The regular expression `(\d+) x (\d+)` tried at position `p`: both
    groups are maximal non-empty digit runs around the literal " x ".
  */
  function MatchAt(s: string, p: nat): (r: Option<Dimensions>)
    requires p <= |s|
    ensures r.Some? ==> && |r.value.first| > 0 && AllDigits(r.value.first)
                        && |r.value.second| > 0 && AllDigits(r.value.second)
                        && OccursAt(s, Render(r.value), p)
    ensures r.Some? ==> var end := p + |Render(r.value)|; end == |s| || !IsDigit(s[end])
  {
    var e1 := DigitRunEnd(s, p);
    if e1 > p && OccursAt(s, " x ", e1) then
      var e2 := DigitRunEnd(s, e1 + 3);
      if e2 > e1 + 3 then
        MatchParts(s, p, e1, e2);
        Some(Dimensions(s[p..e1], s[e1 + 3..e2]))
      else None
    else None
  }

  /** The groups `MatchAt` reads off around " x " are spelled out by `Render`. */
  lemma MatchParts(s: string, p: nat, e1: nat, e2: nat)
    requires p <= |s| && p < e1 && e1 == DigitRunEnd(s, p) && OccursAt(s, " x ", e1)
    requires e1 + 3 < e2 && e2 == DigitRunEnd(s, e1 + 3)
    ensures var d := Dimensions(s[p..e1], s[e1 + 3..e2]);
            && |d.first| > 0 && AllDigits(d.first) && |d.second| > 0 && AllDigits(d.second)
            && OccursAt(s, Render(d), p)
            && (p + |Render(d)| == |s| || !IsDigit(s[p + |Render(d)|]))
  {
    var d := Dimensions(s[p..e1], s[e1 + 3..e2]);
    OccursConcat(s, p, d.first, " x ");
    OccursConcat(s, p, d.first + " x ", d.second);
    assert p + |Render(d)| == e2;
  }

  /** A successful match of the expression, and where it starts. */
  datatype Found = Found(at: nat, dims: Dimensions)

  /** The leftmost position `>= p` where the expression matches. */
  function FindFrom(s: string, p: nat): (r: Option<Found>)
    requires p <= |s|
    ensures r.Some? ==> p <= r.value.at <= |s| && MatchAt(s, r.value.at) == Some(r.value.dims)
    ensures r.Some? ==> forall q :: p <= q < r.value.at ==> MatchAt(s, q).None?
    ensures r.None? ==> forall q :: p <= q <= |s| ==> MatchAt(s, q).None?
    decreases |s| - p
  {
    match MatchAt(s, p)
    case Some(d) => Some(Found(p, d))
    case None => if p == |s| then None else FindFrom(s, p + 1)
  }

  /** `s.match(/(\d+) x (\d+)/)`: the groups of the leftmost match, or `None` (`null`). */
  function FindDimensions(s: string): (r: Option<Dimensions>)
    ensures r.None? <==> forall q :: 0 <= q <= |s| ==> MatchAt(s, q).None?
    ensures r.Some? ==> exists q :: 0 <= q <= |s| && MatchAt(s, q) == r
                                    && forall q' :: 0 <= q' < q ==> MatchAt(s, q').None?
  {
    match FindFrom(s, 0)
    case None => None
    case Some(f) => Some(f.dims)
  }

  /**
    The scale of the main display. It is `Identity` when the report is
    unavailable, when no display is flagged main, when the main display
    lacks either string, or when either string has no `N x M`; otherwise
    each axis is the first `N x M` of the pixel string over the first
    `N x M` of the logical string.
  */
  function GetDisplayScaling(report: ProfilerReport): (r: Scaling)
    ensures report.None? ==> r == Identity
    ensures report.Some? && FindFirst(report.value, IsMainProfilerDisplay).None? ==> r == Identity
    ensures report.Some? && FindFirst(report.value, IsMainProfilerDisplay).Some? ==>
              var main := report.value[FindFirst(report.value, IsMainProfilerDisplay).value];
              if main.resolution.None? || main.pixels.None?
                 || FindDimensions(main.resolution.value).None? || FindDimensions(main.pixels.value).None?
              then r == Identity
              else
                var logical := FindDimensions(main.resolution.value).value;
                var physical := FindDimensions(main.pixels.value).value;
                && r.x == Ratio(DecimalValue(physical.first), DecimalValue(logical.first))
                && r.y == Ratio(DecimalValue(physical.second), DecimalValue(logical.second))
  {
    match report
    case None => Identity
    case Some(displays) =>
      match FindFirst(displays, IsMainProfilerDisplay)
      case None => Identity
      case Some(k) =>
        var main := displays[k];
        if main.resolution.None? || main.pixels.None? then Identity
        else
          match (FindDimensions(main.resolution.value), FindDimensions(main.pixels.value))
          case (Some(logical), Some(physical)) =>
            Scaling(Ratio(DecimalValue(physical.first), DecimalValue(logical.first)),
                    Ratio(DecimalValue(physical.second), DecimalValue(logical.second)))
          case _ => Identity
  }

  /**
    A string made of a digit-free lead, `w x h` printed in decimal, and a
    tail that does not continue the second number, e.g. "1440 x 900 @ 60.00Hz".
  */
  function ResolutionText(lead: string, w: nat, h: nat, tail: string): string {
    lead + (NatToDigits(w) + " x " + NatToDigits(h)) + tail
  }

  predicate DigitFree(s: string) {
    forall i :: 0 <= i < |s| ==> !IsDigit(s[i])
  }

  /** The expression matches at `p` when two maximal digit runs around " x " start there. */
  lemma MatchAtRuns(s: string, p: nat, a: string, b: string)
    requires |a| > 0 && AllDigits(a) && |b| > 0 && AllDigits(b)
    requires OccursAt(s, a + " x " + b, p)
    requires p + |a| + 3 + |b| == |s| || !IsDigit(s[p + |a| + 3 + |b|])
    ensures MatchAt(s, p) == Some(Dimensions(a, b))
  {
    OccursConcat(s, p, a + " x ", b);
    OccursConcat(s, p, a, " x ");
    assert s[p + |a|] == s[p + |a|..p + |a| + 3][0] == ' ';
    DigitRunOf(s, p, a);
    DigitRunOf(s, p + |a| + 3, b);
    var e1, e2 := p + |a|, p + |a| + 3 + |b|;
    MatchAtEnds(s, p, e1, e2);
    assert s[p..e1] == a && s[e1 + 3..e2] == b;
  }

  /** Where the two digit runs end decides what `MatchAt` yields. */
  lemma MatchAtEnds(s: string, p: nat, e1: nat, e2: nat)
    requires p <= |s| && p < e1 && e1 == DigitRunEnd(s, p) && OccursAt(s, " x ", e1)
    requires e1 + 3 < e2 && e2 == DigitRunEnd(s, e1 + 3)
    ensures MatchAt(s, p) == Some(Dimensions(s[p..e1], s[e1 + 3..e2]))
  {
  }

  /** No match can start inside a lead that holds no digit. */
  lemma NoMatchInDigitFreeLead(s: string, lead: string)
    requires |lead| <= |s| && s[..|lead|] == lead && DigitFree(lead)
    ensures forall q :: 0 <= q < |lead| ==> MatchAt(s, q).None?
  {
    forall q | 0 <= q < |lead|
      ensures MatchAt(s, q).None?
    {
      assert s[q] == lead[q];
    }
  }

  /** The search from `i` stops at the first position that matches. */
  lemma {:induction false} FindFromFirst(s: string, i: nat, p: nat, d: Dimensions)
    requires i <= p <= |s|
    requires forall q :: i <= q < p ==> MatchAt(s, q).None?
    requires MatchAt(s, p) == Some(d)
    ensures FindFrom(s, i) == Some(Found(p, d))
    decreases p - i
  {
    if i < p {
      assert MatchAt(s, i).None?;
      FindFromFirst(s, i + 1, p, d);
    }
  }

  /** After a digit-free prefix, two maximal digit runs around " x " are what the expression finds. */
  lemma FindDimensionsAfterLead(s: string, p: nat, a: string, b: string)
    requires p <= |s| && DigitFree(s[..p])
    requires |a| > 0 && AllDigits(a) && |b| > 0 && AllDigits(b)
    requires OccursAt(s, a + " x " + b, p)
    requires p + |a| + 3 + |b| == |s| || !IsDigit(s[p + |a| + 3 + |b|])
    ensures FindDimensions(s) == Some(Dimensions(a, b))
  {
    NoMatchInDigitFreeLead(s, s[..p]);
    MatchAtRuns(s, p, a, b);
    FindFromFirst(s, 0, p, Dimensions(a, b));
  }

  /** The expression finds the printed numbers of a `ResolutionText`, and nothing before them. */
  lemma FindDimensionsOfResolutionText(lead: string, w: nat, h: nat, tail: string)
    requires DigitFree(lead)
    requires tail == [] || !IsDigit(tail[0])
    ensures FindDimensions(ResolutionText(lead, w, h, tail)) == Some(Dimensions(NatToDigits(w), NatToDigits(h)))
  {
    var a, b := NatToDigits(w), NatToDigits(h);
    OccursInMiddle(lead, a + " x " + b, tail);
    FindDimensionsAfterLead(ResolutionText(lead, w, h, tail), |lead|, a, b);
  }

  /**
    A main display whose strings read `Lw x Lh ...` and `Pw x Ph ...` scales
    by `Pw/Lw` horizontally and `Ph/Lh` vertically: the printed numbers are
    parsed back exactly.
  */
  lemma ScalingOfMainDisplay(displays: seq<ProfilerDisplay>, k: nat,
                             logicalLead: string, lw: nat, lh: nat, logicalTail: string,
                             physicalLead: string, pw: nat, ph: nat, physicalTail: string)
    requires k < |displays| && IsMainProfilerDisplay(displays[k])
    requires forall j :: 0 <= j < k ==> !IsMainProfilerDisplay(displays[j])
    requires displays[k].resolution == Some(ResolutionText(logicalLead, lw, lh, logicalTail))
    requires displays[k].pixels == Some(ResolutionText(physicalLead, pw, ph, physicalTail))
    requires DigitFree(logicalLead) && DigitFree(physicalLead)
    requires (logicalTail == [] || !IsDigit(logicalTail[0])) && (physicalTail == [] || !IsDigit(physicalTail[0]))
    ensures GetDisplayScaling(Some(displays)) == Scaling(Ratio(pw, lw), Ratio(ph, lh))
  {
    FindFirstIs(displays, IsMainProfilerDisplay, k);
    FindDimensionsOfResolutionText(logicalLead, lw, lh, logicalTail);
    FindDimensionsOfResolutionText(physicalLead, pw, ph, physicalTail);
    ScalingFromDimensions(displays, k, Dimensions(NatToDigits(lw), NatToDigits(lh)),
                          Dimensions(NatToDigits(pw), NatToDigits(ph)));
    DecimalValueOfNatToDigits(lw);
    DecimalValueOfNatToDigits(lh);
    DecimalValueOfNatToDigits(pw);
    DecimalValueOfNatToDigits(ph);
  }

  /** Once both strings of the main display are parsed, the scale is the ratio of their numbers. */
  lemma ScalingFromDimensions(displays: seq<ProfilerDisplay>, k: nat, logical: Dimensions, physical: Dimensions)
    requires FindFirst(displays, IsMainProfilerDisplay) == Some(k) && k < |displays|
    requires displays[k].resolution.Some? && FindDimensions(displays[k].resolution.value) == Some(logical)
    requires displays[k].pixels.Some? && FindDimensions(displays[k].pixels.value) == Some(physical)
    ensures GetDisplayScaling(Some(displays))
            == Scaling(Ratio(DecimalValue(physical.first), DecimalValue(logical.first)),
                       Ratio(DecimalValue(physical.second), DecimalValue(logical.second)))
  {
  }
}
