/**
  The AVFoundation device listing (`listAVFoundationDevices` in
  server-control/src/video-utils.ts). The text ffmpeg prints for
  `-f avfoundation -list_devices true` is split on '\n' and read line by
  line: a line holding "AVFoundation video devices:" or "AVFoundation audio
  devices:" opens a section, and inside a section every line matching
  `\[.*\] \[(\d+)\] (.*)` whose name group is not empty yields a device
  with that index, the trimmed name and the section's kind.
*/
module DeviceReport {
  import opened Base
  import opened Text

  datatype DeviceKind = Video | Audio

  /** `{ index, name, type }`; the index is kept as the digit string the listing printed. */
  datatype Device = Device(index: string, name: string, kind: DeviceKind)

  const VideoHeader: string := "AVFoundation video devices:"
  const AudioHeader: string := "AVFoundation audio devices:"
  const ListFailedPrefix: string := "获取AVFoundation设备列表失败: "

  /** The section a header line opens; the video header is looked for first. */
  function HeaderKind(line: string): (r: Option<DeviceKind>)
    ensures r == Some(Video) <==> exists i :: OccursAt(line, VideoHeader, i)
    ensures r == Some(Audio) <==> (forall i :: !OccursAt(line, VideoHeader, i)) && exists i :: OccursAt(line, AudioHeader, i)
  {
    if Contains(line, VideoHeader) then Some(Video)
    else if Contains(line, AudioHeader) then Some(Audio)
    else None
  }

  /** The two groups of a device-line match: the index digits and the raw (untrimmed) name. */
  datatype LineMatch = LineMatch(index: string, rawName: string)

  /** How a device line spells index and name after its `]` at the end of the first bracket. */
  function Tail(m: LineMatch): string {
    "] [" + m.index + "] " + m.rawName
  }

  /**
    The part `\] \[(\d+)\] (.*)` of the expression tried at `j`. Only the
    longest digit run can be followed by "]", and the name runs to the end
    of the line.
  */
  function TailAt(s: string, j: nat): (r: Option<LineMatch>)
    requires j <= |s|
    ensures r.Some? ==> |r.value.index| > 0 && AllDigits(r.value.index)
    ensures r.Some? ==> OccursAt(s, Tail(r.value), j)
    ensures r.Some? ==> OneLine(r.value.rawName)
    ensures r.Some? ==> var end := j + |Tail(r.value)|; end == |s| || IsLineTerminator(s[end])
  {
    if OccursAt(s, "] [", j) then
      var e := DigitRunEnd(s, j + 3);
      if e > j + 3 && OccursAt(s, "] ", e) then
        TailParts(s, j, e);
        Some(LineMatch(s[j + 3..e], s[e + 2..LineEnd(s, e + 2)]))
      else None
    else None
  }

  /** The groups `TailAt` reads off between "] [", "] " and the end of the line are spelled out by `Tail`. */
  lemma TailParts(s: string, j: nat, e: nat)
    requires OccursAt(s, "] [", j) && j + 3 < e && OccursAt(s, "] ", e)
    requires e == DigitRunEnd(s, j + 3)
    ensures var m := LineMatch(s[j + 3..e], s[e + 2..LineEnd(s, e + 2)]);
            && |m.index| > 0 && AllDigits(m.index)
            && OccursAt(s, Tail(m), j) && OneLine(m.rawName)
            && (j + |Tail(m)| == |s| || IsLineTerminator(s[j + |Tail(m)|]))
  {
    var end := LineEnd(s, e + 2);
    var m := LineMatch(s[j + 3..e], s[e + 2..end]);
    OccursConcat(s, j, "] [", m.index);
    OccursConcat(s, j, "] [" + m.index, "] ");
    OccursConcat(s, j, "] [" + m.index + "] ", m.rawName);
    assert "] [" + m.index + "] " + m.rawName == Tail(m);
    assert j + |Tail(m)| == end;
    forall i | 0 <= i < |m.rawName|
      ensures !IsLineTerminator(m.rawName[i])
    {
      assert m.rawName[i] == s[e + 2 + i];
    }
  }

  /**
    The greedy `.*` after the opening `[`: the greatest position in
    `lo..hi` where the rest of the expression matches.
  */
  function LastTail(s: string, lo: nat, hi: nat): (r: Option<nat>)
    requires lo <= hi <= |s|
    ensures r.Some? ==> lo <= r.value <= hi && TailAt(s, r.value).Some?
    ensures r.Some? ==> forall j :: r.value < j <= hi ==> TailAt(s, j).None?
    ensures r.None? ==> forall j :: lo <= j <= hi ==> TailAt(s, j).None?
    decreases hi - lo
  {
    if TailAt(s, hi).Some? then Some(hi)
    else if hi == lo then None
    else LastTail(s, lo, hi - 1)
  }

  /** The whole expression tried at `p`: a `[`, then `.*` up to the end of the line at most. */
  function MatchFrom(s: string, p: nat): (r: Option<LineMatch>)
    requires p <= |s|
    ensures r.Some? ==> p < |s| && s[p] == '[' && |r.value.index| > 0 && AllDigits(r.value.index)
  {
    if p < |s| && s[p] == '[' then
      match LastTail(s, p + 1, LineEnd(s, p + 1))
      case None => None
      case Some(j) => TailAt(s, j)
    else None
  }

  /** A match at `p` has its groups read off at the last tail position on the line: `.*` is greedy. */
  lemma MatchFromIsGreedy(s: string, p: nat)
    requires p <= |s| && MatchFrom(s, p).Some?
    ensures exists j :: p < j <= LineEnd(s, p + 1) && TailAt(s, j) == MatchFrom(s, p)
                        && forall j' :: j < j' <= LineEnd(s, p + 1) ==> TailAt(s, j').None?
  {
    var j := LastTail(s, p + 1, LineEnd(s, p + 1)).value;
    assert TailAt(s, j) == MatchFrom(s, p);
  }

  /** The expression matches at `p` when `p` holds a `[` and a tail follows on the same line. */
  lemma MatchFromWhenTail(s: string, p: nat, j: nat)
    requires p < |s| && s[p] == '['
    requires p < j <= LineEnd(s, p + 1) && TailAt(s, j).Some?
    ensures MatchFrom(s, p).Some?
  {
  }

  /** The leftmost position `>= p` where the expression matches. */
  function FirstMatchFrom(s: string, p: nat): (r: Option<nat>)
    requires p <= |s|
    ensures r.Some? ==> p <= r.value <= |s| && MatchFrom(s, r.value).Some?
    ensures r.Some? ==> forall q :: p <= q < r.value ==> MatchFrom(s, q).None?
    ensures r.None? ==> forall q :: p <= q <= |s| ==> MatchFrom(s, q).None?
    decreases |s| - p
  {
    if MatchFrom(s, p).Some? then Some(p)
    else if p == |s| then None
    else FirstMatchFrom(s, p + 1)
  }

  /** `line.match(/\[.*\] \[(\d+)\] (.*)/)`: the groups of the leftmost match, or `None` (`null`). */
  function MatchDeviceLine(line: string): (r: Option<LineMatch>)
    ensures r.None? <==> forall q :: 0 <= q <= |line| ==> MatchFrom(line, q).None?
    ensures r.Some? ==> |r.value.index| > 0 && AllDigits(r.value.index)
  {
    match FirstMatchFrom(line, 0)
    case None => None
    case Some(q) => MatchFrom(line, q)
  }

  /** The groups `MatchDeviceLine` returns are those of the leftmost position that matches. */
  lemma MatchDeviceLineIsLeftmost(line: string)
    requires MatchDeviceLine(line).Some?
    ensures exists q :: 0 <= q <= |line| && MatchFrom(line, q) == MatchDeviceLine(line)
                        && forall q' :: 0 <= q' < q ==> MatchFrom(line, q').None?
  {
    var q := FirstMatchFrom(line, 0).value;
    assert MatchFrom(line, q) == MatchDeviceLine(line);
  }

  /**
    What one line of the listing is to the loop: a header opening a
    section, a device entry (index and trimmed name, when both groups of
    the match are non-empty), or anything else.
  */
  datatype LineKind = Header(kind: DeviceKind) | Entry(index: string, name: string) | Other

  /** How the loop reads one line: the header tests first, then the device-line match. */
  function Classify(line: string): (c: LineKind)
    ensures c.Entry? ==> |c.index| > 0 && AllDigits(c.index)
  {
    match HeaderKind(line)
    case Some(kind) => Header(kind)
    case None =>
      match MatchDeviceLine(line)
      case Some(m) =>
        if |m.index| > 0 && |m.rawName| > 0 then Entry(m.index, Trim(m.rawName)) else Other
      case None => Other
  }

  /**
    A line is an entry exactly when it is no header and matches with a
    non-empty name group; the entry then holds the index and the trimmed name.
  */
  lemma EntryExactly(line: string)
    ensures Classify(line).Entry? <==>
              && HeaderKind(line).None? && MatchDeviceLine(line).Some?
              && |MatchDeviceLine(line).value.rawName| > 0
    ensures Classify(line).Entry? ==>
              && Classify(line).index == MatchDeviceLine(line).value.index
              && Classify(line).name == Trim(MatchDeviceLine(line).value.rawName)
  {
  }

  /** Every line of the listing, classified. */
  function ClassifyAll(lines: seq<string>): seq<LineKind> {
    MapSeq(Classify, lines)
  }

  /** The kind of the last header among the first `i` lines, `None` before any header. */
  function SectionBefore(cs: seq<LineKind>, i: nat): Option<DeviceKind>
    requires i <= |cs|
  {
    if i == 0 then None
    else if cs[i - 1].Header? then Some(cs[i - 1].kind)
    else SectionBefore(cs, i - 1)
  }

  /** What line `i` contributes: its device when it is an entry inside a section. */
  function LineDevices(cs: seq<LineKind>, i: nat): seq<Device>
    requires i < |cs|
  {
    match (cs[i], SectionBefore(cs, i))
    case (Entry(index, name), Some(kind)) => [Device(index, name, kind)]
    case _ => []
  }

  /** The devices of the first `n` lines, in line order. */
  function DevicesUpTo(cs: seq<LineKind>, n: nat): seq<Device>
    requires n <= |cs|
  {
    if n == 0 then [] else DevicesUpTo(cs, n - 1) + LineDevices(cs, n - 1)
  }

  /** The devices listed in `output`. */
  function ParseDevices(output: string): (devices: seq<Device>)
    ensures |devices| <= |SplitLines(output)|
    ensures var cs := ClassifyAll(SplitLines(output));
            forall k :: 0 <= k < |devices| ==> FromListedLine(cs, |cs|, devices[k])
  {
    var cs := ClassifyAll(SplitLines(output));
    AtMostOnePerLine(cs, |cs|);
    AllListed(cs, |cs|);
    DevicesUpTo(cs, |cs|)
  }

  /**
    The loop over the lines as the source writes it, with the current
    section kept in a variable: it yields exactly the entries of every line,
    each in the section of the last header above it.
  */
  method ScanLines(lines: seq<string>) returns (devices: seq<Device>)
    ensures devices == DevicesUpTo(ClassifyAll(lines), |lines|)
  {
    devices := [];
    var current: Option<DeviceKind> := None;
    var i := 0;
    while i < |lines|
      invariant 0 <= i <= |lines|
      invariant current == SectionBefore(ClassifyAll(lines[..i]), i)
      invariant devices == DevicesUpTo(ClassifyAll(lines[..i]), i)
    {
      ghost var before := ClassifyAll(lines[..i]);
      var c := Classify(lines[i]);
      MapSnoc(Classify, lines, i);
      PrefixDecides(before + [c], before, i);
      current, devices := ScanStep(before + [c], i, c, current, devices);
      i := i + 1;
    }
    assert lines[..i] == lines;
  }

  /**
    One turn of the loop on line `i`, already classified as `c`: a header switches
    the section, an entry inside a section is appended.
  */
  method ScanStep(ghost cs: seq<LineKind>, ghost i: nat, c: LineKind,
                  current: Option<DeviceKind>, devices: seq<Device>)
    returns (current': Option<DeviceKind>, devices': seq<Device>)
    requires i < |cs| && cs[i] == c
    requires current == SectionBefore(cs, i) && devices == DevicesUpTo(cs, i)
    ensures current' == SectionBefore(cs, i + 1) && devices' == DevicesUpTo(cs, i + 1)
  {
    current', devices' := current, devices;
    match c {
      case Header(kind) =>
        current' := Some(kind);
      case Entry(index, name) =>
        if current.Some? {
          devices' := devices + [Device(index, name, current.value)];
        }
      case Other =>
    }
  }

  /** Section and devices of the first `n` lines depend on those lines only. */
  lemma {:induction false} PrefixDecides(cs: seq<LineKind>, ds: seq<LineKind>, n: nat)
    requires n <= |cs| && n <= |ds| && cs[..n] == ds[..n]
    ensures SectionBefore(cs, n) == SectionBefore(ds, n)
    ensures DevicesUpTo(cs, n) == DevicesUpTo(ds, n)
  {
    if n > 0 {
      assert cs[n - 1] == cs[..n][n - 1] == ds[n - 1];
      assert cs[..n - 1] == cs[..n][..n - 1];
      assert ds[..n - 1] == ds[..n][..n - 1];
      PrefixDecides(cs, ds, n - 1);
    }
  }

  /**
    `listAVFoundationDevices`. `output` is what running ffmpeg yielded: its
    text, or the message of what it threw. A failure is rethrown with the
    prefix "获取AVFoundation设备列表失败: ".
  */
  method ListAVFoundationDevices(output: Result<string, string>) returns (r: Result<seq<Device>, string>)
    ensures r == ListDevices(output)
  {
    match output
    case Err(message) =>
      r := Err(ListFailedPrefix + message);
    case Ok(text) =>
      var devices := ScanLines(SplitLines(text));
      r := Ok(devices);
  }

  /** What the listing yields: the prefixed failure, or the parsed records of any output. */
  function ListDevices(output: Result<string, string>): (r: Result<seq<Device>, string>)
    ensures output.Err? ==> r == Err(ListFailedPrefix + output.error)
    ensures output.Ok? ==> r == Ok(ParseDevices(output.value))
  {
    match output
    case Err(message) => Err(ListFailedPrefix + message)
    case Ok(text) => Ok(ParseDevices(text))
  }

  /** Line `i` is the entry `d` names, below a header of `d`'s kind. */
  predicate ListedAt(cs: seq<LineKind>, i: nat, d: Device)
    requires i < |cs|
  {
    cs[i] == Entry(d.index, d.name) && SectionBefore(cs, i) == Some(d.kind)
  }

  /** Every device comes from an entry line below a header of its kind. */
  lemma {:induction false} DeviceProvenance(cs: seq<LineKind>, n: nat, k: nat)
    requires n <= |cs| && k < |DevicesUpTo(cs, n)|
    ensures exists i :: 0 <= i < n && ListedAt(cs, i, DevicesUpTo(cs, n)[k])
  {
    var before := DevicesUpTo(cs, n - 1);
    if k < |before| {
      DeviceProvenance(cs, n - 1, k);
      var i :| 0 <= i < n - 1 && ListedAt(cs, i, before[k]);
      assert ListedAt(cs, i, DevicesUpTo(cs, n)[k]);
    } else {
      assert ListedAt(cs, n - 1, DevicesUpTo(cs, n)[k]);
    }
  }

  /** `d` is the device of an entry line among the first `n`. */
  predicate FromListedLine(cs: seq<LineKind>, n: nat, d: Device)
    requires n <= |cs|
  {
    exists i :: 0 <= i < n && ListedAt(cs, i, d)
  }

  /** Every device of the first `n` lines comes from an entry line among them. */
  lemma AllListed(cs: seq<LineKind>, n: nat)
    requires n <= |cs|
    ensures forall k :: 0 <= k < |DevicesUpTo(cs, n)| ==> FromListedLine(cs, n, DevicesUpTo(cs, n)[k])
  {
    forall k | 0 <= k < |DevicesUpTo(cs, n)|
      ensures FromListedLine(cs, n, DevicesUpTo(cs, n)[k])
    {
      DeviceProvenance(cs, n, k);
    }
  }

  /** Every entry line below a header shows up in the listing. */
  lemma {:induction false} EntryIsListed(cs: seq<LineKind>, n: nat, i: nat, d: Device)
    requires i < n <= |cs| && ListedAt(cs, i, d)
    ensures d in DevicesUpTo(cs, n)
  {
    if i < n - 1 {
      EntryIsListed(cs, n - 1, i, d);
    } else {
      assert LineDevices(cs, i) == [d];
    }
  }

  /** The line device `k` of the first `n` lines comes from. */
  function LineOf(cs: seq<LineKind>, n: nat, k: nat): (i: nat)
    requires n <= |cs| && k < |DevicesUpTo(cs, n)|
    ensures i < n && ListedAt(cs, i, DevicesUpTo(cs, n)[k])
  {
    if k < |DevicesUpTo(cs, n - 1)| then LineOf(cs, n - 1, k) else n - 1
  }

  /** The devices come out in line order, one per listed line: their lines strictly increase. */
  lemma {:induction false} LinesIncrease(cs: seq<LineKind>, n: nat, k1: nat, k2: nat)
    requires n <= |cs| && k1 < k2 < |DevicesUpTo(cs, n)|
    ensures LineOf(cs, n, k1) < LineOf(cs, n, k2)
  {
    var before := DevicesUpTo(cs, n - 1);
    if k2 < |before| {
      LinesIncrease(cs, n - 1, k1, k2);
    } else {
      assert |LineDevices(cs, n - 1)| <= 1;
      assert k1 < |before|;
      assert LineOf(cs, n, k1) == LineOf(cs, n - 1, k1);
    }
  }

  /** Every entry line below a header is the line of some device. */
  lemma {:induction false} EntryHasDevice(cs: seq<LineKind>, n: nat, i: nat)
    requires i < n <= |cs| && cs[i].Entry? && SectionBefore(cs, i).Some?
    ensures exists k :: 0 <= k < |DevicesUpTo(cs, n)| && LineOf(cs, n, k) == i
  {
    var before := DevicesUpTo(cs, n - 1);
    if i == n - 1 {
      assert LineOf(cs, n, |before|) == i;
    } else {
      EntryHasDevice(cs, n - 1, i);
      var k :| 0 <= k < |before| && LineOf(cs, n - 1, k) == i;
      assert LineOf(cs, n, k) == i;
    }
  }

  /** The listing never holds more devices than lines. */
  lemma {:induction false} AtMostOnePerLine(cs: seq<LineKind>, n: nat)
    requires n <= |cs|
    ensures |DevicesUpTo(cs, n)| <= n
  {
    if n > 0 {
      AtMostOnePerLine(cs, n - 1);
    }
  }

  /** Before the first header nothing is in a section. */
  lemma {:induction false} NoHeaderNoSection(cs: seq<LineKind>, n: nat)
    requires n <= |cs|
    requires forall i :: 0 <= i < n ==> !cs[i].Header?
    ensures SectionBefore(cs, n).None?
  {
    if n > 0 {
      NoHeaderNoSection(cs, n - 1);
    }
  }

  /** Output without a header line lists no device, whatever else it prints. */
  lemma {:induction false} NoHeaderNoDevices(cs: seq<LineKind>, n: nat)
    requires n <= |cs|
    requires forall i :: 0 <= i < n ==> !cs[i].Header?
    ensures DevicesUpTo(cs, n) == []
  {
    if n > 0 {
      NoHeaderNoDevices(cs, n - 1);
      NoHeaderNoSection(cs, n - 1);
      assert |LineDevices(cs, n - 1)| == 0;
      assert |DevicesUpTo(cs, n)| == 0;
    }
  }

  /** `s` has no character the `.` of a regular expression refuses. */
  predicate OneLine(s: string) {
    forall i :: 0 <= i < |s| ==> !IsLineTerminator(s[i])
  }

  /** A device line as ffmpeg prints it: `[tag] [index] name`. */
  function DeviceLine(tag: string, index: string, name: string): string {
    "[" + tag + "] [" + index + "] " + name
  }

  /**
    A device line is not a header when neither its tag nor its name holds a
    colon, since both headers end in one.
  */
  lemma ColonFreeIsNoHeader(line: string)
    requires ':' !in line
    ensures HeaderKind(line).None?
  {
    forall i
      ensures !OccursAt(line, VideoHeader, i) && !OccursAt(line, AudioHeader, i)
    {
      if 0 <= i && i + 27 <= |line| {
        assert line[i..i + 27][26] == line[i + 26] != ':';
      }
    }
  }

  /**
    In `[tag] [index] name` with a name free of `]`, no `]` follows the
    first bracket except the one closing the index.
  */
  lemma OnlyIndexBracketAfterTag(tag: string, index: string, name: string, k: nat)
    requires AllDigits(index) && ']' !in name
    requires |tag| + 1 < k < |DeviceLine(tag, index, name)| && k != |tag| + 4 + |index|
    ensures DeviceLine(tag, index, name)[k] != ']'
  {
    var s := DeviceLine(tag, index, name);
    var b := |tag| + 4;
    var c := b + |index| + 2;
    assert s == "[" + tag + "] [" + index + "] " + name;
    if b <= k < b + |index| {
      assert s[k] == index[k - b];
    } else if c <= k {
      assert s[k] == name[k - c];
    }
  }

  /**
    ffmpeg's device line is read back exactly: on `[tag] [index] name` with
    no line break, and no `]` in the name, the expression yields the index
    and the name.
  */
  lemma DeviceLineRoundTrip(tag: string, index: string, name: string)
    requires |index| > 0 && AllDigits(index)
    requires OneLine(tag) && OneLine(name) && ']' !in name
    ensures MatchDeviceLine(DeviceLine(tag, index, name)) == Some(LineMatch(index, name))
  {
    var s := DeviceLine(tag, index, name);
    var a := |tag| + 1;
    LineBreakFree(tag, index, name);
    assert LineEnd(s, 1) == |s|;
    TailOfDeviceLine(tag, index, name);
    NoTailAfterIndex(tag, index, name);
    assert LastTail(s, 1, |s|) == Some(a);
    assert MatchFrom(s, 0) == Some(LineMatch(index, name));
  }

  /** A device line built from one-line pieces holds no line terminator. */
  lemma LineBreakFree(tag: string, index: string, name: string)
    requires AllDigits(index) && OneLine(tag) && OneLine(name)
    ensures OneLine(DeviceLine(tag, index, name))
  {
    var s := DeviceLine(tag, index, name);
    var b := |tag| + 4;
    var c := b + |index| + 2;
    assert s == "[" + tag + "] [" + index + "] " + name;
    forall i | 0 <= i < |s|
      ensures !IsLineTerminator(s[i])
    {
      if 1 <= i < b - 3 { assert s[i] == tag[i - 1]; }
      else if c <= i { assert s[i] == name[i - c]; }
      else if b <= i < c - 2 { assert s[i] == index[i - b]; }
    }
  }

  /** After the first bracket, the line reads `] [index] name` to its end. */
  lemma TailOfDeviceLine(tag: string, index: string, name: string)
    requires |index| > 0 && AllDigits(index) && OneLine(name)
    ensures TailAt(DeviceLine(tag, index, name), |tag| + 1) == Some(LineMatch(index, name))
  {
    var s := DeviceLine(tag, index, name);
    var a := |tag| + 1;
    var e := a + 3 + |index|;
    assert s == "[" + tag + "] [" + index + "] " + name;
    assert s[a..a + 3] == "] [";
    assert s[a + 3..e] == index;
    assert s[e..e + 2] == "] ";
    assert s[e + 2..] == name;
    TailFromLayout(s, a, index, name);
  }

  /** Where `s` reads `] [index] name` from `a` to its end, that is the tail match at `a`. */
  lemma TailFromLayout(s: string, a: nat, index: string, name: string)
    requires a + 5 + |index| + |name| == |s|
    requires OccursAt(s, "] [", a) && OccursAt(s, "] ", a + 3 + |index|)
    requires s[a + 3..a + 3 + |index|] == index && s[a + 5 + |index|..] == name
    requires |index| > 0 && AllDigits(index) && OneLine(name)
    ensures TailAt(s, a) == Some(LineMatch(index, name))
  {
    var b := a + 3;
    var e := b + |index|;
    forall i | b <= i < e
      ensures IsDigit(s[i])
    {
      assert s[i] == s[b..e][i - b];
    }
    assert s[e] == s[e..e + 2][0];
    RunEndIsFirstStop(s, b, e, IsDigit);
    forall i | e + 2 <= i < |s|
      ensures !IsLineTerminator(s[i])
    {
      assert s[i] == s[e + 2..][i - e - 2];
    }
    assert LineEnd(s, e + 2) == |s|;
    assert DigitRunEnd(s, b) == e;
    assert s[b..DigitRunEnd(s, b)] == index;
    assert s[e + 2..LineEnd(s, e + 2)] == name;
  }

  /** No later position starts `] [digits] `: the only `]` past the tag closes the index. */
  lemma NoTailAfterIndex(tag: string, index: string, name: string)
    requires |index| > 0 && AllDigits(index) && ']' !in name
    ensures forall j :: |tag| + 1 < j <= |DeviceLine(tag, index, name)| ==> TailAt(DeviceLine(tag, index, name), j).None?
  {
    var s := DeviceLine(tag, index, name);
    var e := |tag| + 4 + |index|;
    forall j | |tag| + 1 < j <= |s|
      ensures TailAt(s, j).None?
    {
      if OccursAt(s, "] [", j) {
        assert s[j] == s[j..j + 3][0] == ']';
        if j != e {
          OnlyIndexBracketAfterTag(tag, index, name, j);
        } else {
          var e2 := DigitRunEnd(s, e + 3);
          if e2 < |s| {
            OnlyIndexBracketAfterTag(tag, index, name, e2);
          }
        }
      }
    }
  }

  /** A device line built from colon-free pieces holds no colon. */
  lemma ColonFreeDeviceLine(tag: string, index: string, name: string)
    requires AllDigits(index) && ':' !in tag && ':' !in name
    ensures ':' !in DeviceLine(tag, index, name)
  {
    var s := DeviceLine(tag, index, name);
    var b := |tag| + 4;
    var c := b + |index| + 2;
    assert s == "[" + tag + "] [" + index + "] " + name;
    forall i | 0 <= i < |s|
      ensures s[i] != ':'
    {
      if 1 <= i < b - 3 { assert s[i] == tag[i - 1]; }
      else if c <= i { assert s[i] == name[i - c]; }
      else if b <= i < c - 2 { assert s[i] == index[i - b]; }
    }
  }

  /** The pieces of a device line ffmpeg prints: no line break, no colon, no `]` in the name. */
  predicate PlainEntry(tag: string, index: string, name: string) {
    && |index| > 0 && AllDigits(index) && |name| > 0
    && OneLine(tag) && OneLine(name) && ']' !in name
    && ':' !in tag && ':' !in name
  }

  /** A plain device line is an entry with its index and trimmed name. */
  lemma ClassifyDeviceLine(tag: string, index: string, name: string)
    requires PlainEntry(tag, index, name)
    ensures Classify(DeviceLine(tag, index, name)) == Entry(index, Trim(name))
    ensures '\n' !in DeviceLine(tag, index, name)
  {
    var s := DeviceLine(tag, index, name);
    ColonFreeDeviceLine(tag, index, name);
    ColonFreeIsNoHeader(s);
    DeviceLineRoundTrip(tag, index, name);
    ClassifyOfMatch(s, LineMatch(index, name));
    LineBreakFree(tag, index, name);
    OneLineHasNoNewline(s);
  }

  lemma OneLineHasNoNewline(s: string)
    requires OneLine(s)
    ensures '\n' !in s
  {
    assert forall i :: 0 <= i < |s| ==> s[i] != '\n';
  }

  /** A line that is no header and matches with both groups non-empty is that entry. */
  lemma ClassifyOfMatch(line: string, m: LineMatch)
    requires HeaderKind(line).None? && MatchDeviceLine(line) == Some(m)
    requires |m.index| > 0 && |m.rawName| > 0
    ensures Classify(line) == Entry(m.index, Trim(m.rawName))
  {
  }

  /**
    A device line whose name group is empty, e.g. one ending in "] [3] ",
    is matched but yields no entry: `matches[2]` is falsy.
  */
  lemma EmptyNameIsNoEntry(tag: string, index: string)
    requires |index| > 0 && AllDigits(index) && OneLine(tag) && ':' !in tag
    ensures MatchDeviceLine(DeviceLine(tag, index, "")) == Some(LineMatch(index, ""))
    ensures Classify(DeviceLine(tag, index, "")) == Other
  {
    ColonFreeDeviceLine(tag, index, "");
    ColonFreeIsNoHeader(DeviceLine(tag, index, ""));
    DeviceLineRoundTrip(tag, index, "");
  }

  /** A line holding both headers opens the video section: the video test comes first. */
  lemma VideoHeaderFirst(line: string)
    requires Contains(line, VideoHeader) && Contains(line, AudioHeader)
    ensures Classify(line) == Header(Video)
  {
  }

  /**
    The usual listing: a video header, two video devices, an audio header
    and one audio device. Both video devices are listed as video, in order,
    and the microphone as audio.
  */
  lemma TypicalListing(videoHeader: string, audioHeader: string, tag: string,
                       i0: string, n0: string, i1: string, n1: string, i2: string, n2: string)
    requires HeaderKind(videoHeader) == Some(Video) && HeaderKind(audioHeader) == Some(Audio)
    requires '\n' !in videoHeader && '\n' !in audioHeader
    requires PlainEntry(tag, i0, n0) && PlainEntry(tag, i1, n1) && PlainEntry(tag, i2, n2)
    ensures ParseDevices(JoinLines([videoHeader, DeviceLine(tag, i0, n0), DeviceLine(tag, i1, n1),
                                    audioHeader, DeviceLine(tag, i2, n2)]))
            == [Device(i0, Trim(n0), Video), Device(i1, Trim(n1), Video), Device(i2, Trim(n2), Audio)]
  {
    ListingOfFive(Classify, videoHeader, DeviceLine(tag, i0, n0), DeviceLine(tag, i1, n1),
                  audioHeader, DeviceLine(tag, i2, n2));
    ClassifyDeviceLine(tag, i0, n0);
    ClassifyDeviceLine(tag, i1, n1);
    ClassifyDeviceLine(tag, i2, n2);
    assert Classify(videoHeader) == Header(Video) && Classify(audioHeader) == Header(Audio);
    TypicalSections(i0, Trim(n0), i1, Trim(n1), i2, Trim(n2));
  }

  /** Entries take the kind of the header above them. */
  lemma TypicalSections(i0: string, n0: string, i1: string, n1: string, i2: string, n2: string)
    ensures DevicesUpTo([Header(Video), Entry(i0, n0), Entry(i1, n1), Header(Audio), Entry(i2, n2)], 5)
            == [Device(i0, n0, Video), Device(i1, n1, Video), Device(i2, n2, Audio)]
  {
    var cs := [Header(Video), Entry(i0, n0), Entry(i1, n1), Header(Audio), Entry(i2, n2)];
    assert SectionBefore(cs, 1) == SectionBefore(cs, 2) == Some(Video);
    assert SectionBefore(cs, 4) == Some(Audio);
    assert DevicesUpTo(cs, 1) == [];
    assert DevicesUpTo(cs, 2) == [Device(i0, n0, Video)];
    assert DevicesUpTo(cs, 3) == [Device(i0, n0, Video), Device(i1, n1, Video)];
    assert DevicesUpTo(cs, 4) == DevicesUpTo(cs, 3);
  }

  /** Five newline-free lines are read back from their joined text and mapped one by one. */
  lemma ListingOfFive<T>(f: string -> T, l0: string, l1: string, l2: string, l3: string, l4: string)
    requires '\n' !in l0 && '\n' !in l1 && '\n' !in l2 && '\n' !in l3 && '\n' !in l4
    ensures MapSeq(f, SplitLines(JoinLines([l0, l1, l2, l3, l4]))) == [f(l0), f(l1), f(l2), f(l3), f(l4)]
  {
    var lines := [l0, l1, l2, l3, l4];
    forall i | 0 <= i < 5
      ensures '\n' !in lines[i]
    {
      if i == 0 {} else if i == 1 {} else if i == 2 {} else if i == 3 {} else {}
    }
    SplitJoinLines(lines);
    MapEach(f, lines, [f(l0), f(l1), f(l2), f(l3), f(l4)]);
  }
}
