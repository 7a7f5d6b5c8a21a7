/** The three splitters of Annex B byte streams, and the byte stream format of Annex B of ITU-T H.264 they undo. */
module AnnexB {
  import opened Sequences
  import opened Bytes

  /** How many bytes must follow a start code of three or of four bytes for a splitter to see it. */
  datatype Margins = Margins(three: nat, four: nat)

  /** A splitter looks for the first code of a unit and for the next code with margins of its own. */
  datatype Splitter = Splitter(outer: Margins, inner: Margins)

  const ASSEMBLER := Splitter(Margins(1, 1), Margins(1, 1))
  const H264_DETECTOR := Splitter(Margins(0, 0), Margins(0, 0))
  const HEVC_DETECTOR := Splitter(Margins(1, 0), Margins(0, 0))

  /** The length of the start code at `i`, 0 for none. */
  function CodeAt(m: Margins, data: Bytes, i: nat): (n: nat)
    ensures n == 0 || ((n == 3 || n == 4) && i + n <= |data|)
  {
    if i + 3 + m.three <= |data| && data[i] == 0 && data[i + 1] == 0 && data[i + 2] == 1 then 3
    else if i + 4 + m.four <= |data| && data[i] == 0 && data[i + 1] == 0 && data[i + 2] == 0 && data[i + 3] == 1 then 4
    else 0
  }

  /** The first start code at or after `i`, or the end of the data. */
  function NextCode(m: Margins, data: Bytes, i: nat): (j: nat)
    requires i <= |data|
    ensures i <= j <= |data|
    decreases |data| - i
  {
    if i == |data| || CodeAt(m, data, i) > 0 then i else NextCode(m, data, i + 1)
  }

  /** The non-empty units from position `i` on. */
  function Split(s: Splitter, data: Bytes, i: nat): (units: seq<Bytes>)
    requires i <= |data|
    decreases |data| - i
  {
    if i == |data| then []
    else
      var code := CodeAt(s.outer, data, i);
      if code == 0 then Split(s, data, i + 1)
      else
        var end := NextCode(s.inner, data, i + code);
        (if end > i + code then [data[i + code..end]] else []) + Split(s, data, end)
  }

  // Where no start code fits any more.

  lemma {:induction false} SplitShort(s: Splitter, data: Bytes, i: nat)
    requires i <= |data| < i + 3 + s.outer.three && |data| < i + 4 + s.outer.four
    ensures Split(s, data, i) == []
    decreases |data| - i
  {
    if i < |data| {
      SplitShort(s, data, i + 1);
    }
  }

  lemma {:induction false} NextShort(m: Margins, data: Bytes, i: nat)
    requires i <= |data| < i + 3 + m.three && |data| < i + 4 + m.four
    ensures NextCode(m, data, i) == |data|
    decreases |data| - i
  {
    if i < |data| {
      NextShort(m, data, i + 1);
    }
  }

  /** One turn of a splitter's loop at a start code, after the units in `got`. */
  lemma SplitStep(s: Splitter, data: Bytes, i: nat, got: seq<Bytes>, start: nat, end: nat)
    requires i < |data| && CodeAt(s.outer, data, i) > 0
    requires start == i + CodeAt(s.outer, data, i) && end == NextCode(s.inner, data, start)
    ensures got + Split(s, data, i) == (if end > start then got + [data[start..end]] else got) + Split(s, data, end)
    ensures end > start ==> Split(s, data, i) != [] && Split(s, data, i)[0] == data[start..end]
  {
    if end > start {
      Associative(got, [data[start..end]], Split(s, data, end));
    }
  }

  // The assembler.

  /** Data without any start code is one unit. */
  function OrWhole(units: seq<Bytes>, data: Bytes): seq<Bytes> {
    if units == [] && data != [] then [data] else units
  }

  method FindStartCodeUnits(data: Bytes) returns (units: seq<Bytes>)
    ensures units == OrWhole(Split(ASSEMBLER, data, 0), data)
  {
    units := [];
    var i := 0;
    while i < |data| - 3
      invariant i <= |data| && Split(ASSEMBLER, data, 0) == units + Split(ASSEMBLER, data, i)
    {
      var startCodeLen := AssemblerCode(data, i);
      if startCodeLen > 0 {
        var unitStart := i + startCodeLen;
        var unitEnd := AssemblerNext(data, unitStart);
        SplitStep(ASSEMBLER, data, i, units, unitStart, unitEnd);
        if unitEnd > unitStart {
          units := units + [data[unitStart..unitEnd]];
        }
        i := unitEnd;
      } else {
        i := i + 1;
      }
    }
    SplitShort(ASSEMBLER, data, i);
    if |units| == 0 && |data| > 0 {
      units := [data];
    }
  }

  method AssemblerCode(data: Bytes, i: nat) returns (startCodeLen: nat)
    requires i < |data| - 3
    ensures startCodeLen == CodeAt(ASSEMBLER.outer, data, i)
  {
    startCodeLen := 0;
    if data[i] == 0 && data[i + 1] == 0 {
      if data[i + 2] == 1 {
        startCodeLen := 3;
      } else if i < |data| - 4 && data[i + 2] == 0 && data[i + 3] == 1 {
        startCodeLen := 4;
      }
    }
  }

  method AssemblerNext(data: Bytes, unitStart: nat) returns (unitEnd: nat)
    requires unitStart <= |data|
    ensures unitEnd == NextCode(ASSEMBLER.inner, data, unitStart)
  {
    unitEnd := |data|;
    var j := unitStart;
    while j < |data| - 3
      invariant unitStart <= j <= |data| && NextCode(ASSEMBLER.inner, data, unitStart) == NextCode(ASSEMBLER.inner, data, j)
    {
      if data[j] == 0 && data[j + 1] == 0 && (data[j + 2] == 1 || (j < |data| - 4 && data[j + 2] == 0 && data[j + 3] == 1)) {
        return j;
      }
      j := j + 1;
    }
    NextShort(ASSEMBLER.inner, data, j);
  }

  // The detectors, which also limit the number of units and their sizes.

  datatype Found = Found(units: seq<Bytes>) | UnitTooLarge(units: seq<Bytes>, size: nat) | TooManyUnits(units: seq<Bytes>)

  /** The units still to come, judged one by one after those in `got`. */
  function Capped(maxUnits: nat, maxSize: nat, got: seq<Bytes>, todo: seq<Bytes>): (r: Found)
    decreases |todo|
  {
    if |got| >= maxUnits then TooManyUnits(got)
    else if todo == [] then Found(got)
    else if |todo[0]| > maxSize then UnitTooLarge(got, |todo[0]|)
    else Capped(maxUnits, maxSize, got + [todo[0]], todo[1..])
  }

  /** The caps let a list through exactly when every unit is small enough and there are fewer than the maximum:
      the maximum itself is refused. */
  lemma {:induction false} CapsAreExact(maxUnits: nat, maxSize: nat, got: seq<Bytes>, todo: seq<Bytes>)
    ensures Capped(maxUnits, maxSize, got, todo).Found? <==>
              |got| + |todo| < maxUnits && forall u :: u in todo ==> |u| <= maxSize
    ensures Capped(maxUnits, maxSize, got, todo).Found? ==> Capped(maxUnits, maxSize, got, todo).units == got + todo
    decreases |todo|
  {
    if todo != [] && |got| < maxUnits && |todo[0]| <= maxSize {
      CapsAreExact(maxUnits, maxSize, got + [todo[0]], todo[1..]);
      assert todo == [todo[0]] + todo[1..];
      Associative(got, [todo[0]], todo[1..]);
    }
  }

  /** Units within the caps are taken one by one; the verdict then hangs on the rest. */
  lemma {:induction false} CappedPrefix(maxUnits: nat, maxSize: nat, got: seq<Bytes>, units: seq<Bytes>, rest: seq<Bytes>)
    requires |got| + |units| <= maxUnits && forall u :: u in units ==> |u| <= maxSize
    ensures Capped(maxUnits, maxSize, got, units + rest) == Capped(maxUnits, maxSize, got + units, rest)
    decreases |units|
  {
    if units == [] {
      assert units + rest == rest && got + units == got;
    } else {
      var todo := units + rest;
      assert todo[0] == units[0] && todo[1..] == units[1..] + rest;
      CappedPrefix(maxUnits, maxSize, got + [units[0]], units[1..], rest);
      assert got + [units[0]] + units[1..] == got + units;
    }
  }

  /** A detector that has taken `units` and stands before `rest`. */
  ghost predicate Taken(maxUnits: nat, maxSize: nat, all: seq<Bytes>, units: seq<Bytes>, rest: seq<Bytes>) {
    all == units + rest && |units| <= maxUnits && forall u :: u in units ==> |u| <= maxSize
  }

  /** Its verdict. */
  lemma Verdict(maxUnits: nat, maxSize: nat, all: seq<Bytes>, units: seq<Bytes>, rest: seq<Bytes>)
    requires Taken(maxUnits, maxSize, all, units, rest)
    ensures |units| == maxUnits ==> Capped(maxUnits, maxSize, [], all) == TooManyUnits(units)
    ensures |units| < maxUnits && rest == [] ==> Capped(maxUnits, maxSize, [], all) == Found(units)
    ensures |units| < maxUnits && rest != [] && |rest[0]| > maxSize ==> Capped(maxUnits, maxSize, [], all) == UnitTooLarge(units, |rest[0]|)
  {
    CappedPrefix(maxUnits, maxSize, [], units, rest);
    assert [] + units == units;
  }

  /** One turn of a detector's loop at a start code. */
  lemma DetectorStep(s: Splitter, data: Bytes, i: nat, maxUnits: nat, maxSize: nat, all: seq<Bytes>, units: seq<Bytes>, start: nat, end: nat)
    requires i < |data| && CodeAt(s.outer, data, i) > 0 && |units| < maxUnits
    requires start == i + CodeAt(s.outer, data, i) && end == NextCode(s.inner, data, start)
    requires Taken(maxUnits, maxSize, all, units, Split(s, data, i))
    ensures end == start ==> Taken(maxUnits, maxSize, all, units, Split(s, data, end))
    ensures 0 < end - start <= maxSize ==> Taken(maxUnits, maxSize, all, units + [data[start..end]], Split(s, data, end))
    ensures end - start > maxSize ==> Capped(maxUnits, maxSize, [], all) == UnitTooLarge(units, end - start)
  {
    SplitStep(s, data, i, units, start, end);
    if end - start > maxSize {
      Verdict(maxUnits, maxSize, all, units, Split(s, data, i));
    }
  }

  method H264FindNalUnits(data: Bytes, maxUnits: nat, maxSize: nat) returns (r: Found)
    requires maxUnits >= 1
    ensures r == Capped(maxUnits, maxSize, [], Split(H264_DETECTOR, data, 0))
  {
    var units: seq<Bytes> := [];
    if |data| < 3 {
      SplitShort(H264_DETECTOR, data, 0);
      return Found(units);
    }
    ghost var all := Split(H264_DETECTOR, data, 0);
    var i := 0;
    while i < |data| && |units| < maxUnits
      invariant i <= |data| && Taken(maxUnits, maxSize, all, units, Split(H264_DETECTOR, data, i))
    {
      if i + 3 > |data| {
        SplitShort(H264_DETECTOR, data, i);
        break;
      }
      var startCodeLen := H264Code(data, i);
      if startCodeLen > 0 {
        var nalStart := i + startCodeLen;
        if nalStart >= |data| {
          DetectorStep(H264_DETECTOR, data, i, maxUnits, maxSize, all, units, nalStart, nalStart);
          i := nalStart;
          break;
        }
        var nalEnd := H264Next(data, nalStart);
        DetectorStep(H264_DETECTOR, data, i, maxUnits, maxSize, all, units, nalStart, nalEnd);
        var nalSize := nalEnd - nalStart;
        if 0 < nalSize <= maxSize {
          units := units + [data[nalStart..nalEnd]];
        } else if nalSize > maxSize {
          return UnitTooLarge(units, nalSize);
        }
        i := nalEnd;
      } else {
        i := i + 1;
      }
    }
    Verdict(maxUnits, maxSize, all, units, Split(H264_DETECTOR, data, i));
    return if |units| >= maxUnits then TooManyUnits(units) else Found(units);
  }

  method H264Code(data: Bytes, i: nat) returns (startCodeLen: nat)
    requires i + 3 <= |data|
    ensures startCodeLen == CodeAt(H264_DETECTOR.outer, data, i)
  {
    startCodeLen := 0;
    if data[i] == 0 && data[i + 1] == 0 {
      if data[i + 2] == 1 {
        startCodeLen := 3;
      } else if i + 4 <= |data| && data[i + 2] == 0 && data[i + 3] == 1 {
        startCodeLen := 4;
      }
    }
  }

  method H264Next(data: Bytes, nalStart: nat) returns (nalEnd: nat)
    requires nalStart <= |data|
    ensures nalEnd == NextCode(H264_DETECTOR.inner, data, nalStart)
  {
    nalEnd := |data|;
    var j := nalStart;
    while j < |data|
      invariant nalStart <= j <= |data| && NextCode(H264_DETECTOR.inner, data, nalStart) == NextCode(H264_DETECTOR.inner, data, j)
    {
      if j + 3 > |data| {
        NextShort(H264_DETECTOR.inner, data, j);
        break;
      }
      if data[j] == 0 && data[j + 1] == 0 {
        if data[j + 2] == 1 {
          return j;
        }
        if j + 4 <= |data| && data[j + 2] == 0 && data[j + 3] == 1 {
          return j;
        }
      }
      j := j + 1;
    }
  }

  method HevcFindNalUnits(data: Bytes, maxUnits: nat, maxSize: nat) returns (r: Found)
    requires maxUnits >= 1
    ensures r == Capped(maxUnits, maxSize, [], Split(HEVC_DETECTOR, data, 0))
  {
    var units: seq<Bytes> := [];
    if |data| < 4 {
      SplitShort(HEVC_DETECTOR, data, 0);
      return Found(units);
    }
    ghost var all := Split(HEVC_DETECTOR, data, 0);
    var i := 0;
    while i < |data| - 3 && |units| < maxUnits
      invariant i <= |data| && Taken(maxUnits, maxSize, all, units, Split(HEVC_DETECTOR, data, i))
    {
      var startCodeLen := HevcCode(data, i);
      if startCodeLen > 0 {
        var nalStart := i + startCodeLen;
        if nalStart >= |data| {
          DetectorStep(HEVC_DETECTOR, data, i, maxUnits, maxSize, all, units, nalStart, nalStart);
          i := nalStart;
          break;
        }
        var nalEnd := HevcNext(data, nalStart);
        DetectorStep(HEVC_DETECTOR, data, i, maxUnits, maxSize, all, units, nalStart, nalEnd);
        var nalSize := nalEnd - nalStart;
        if 0 < nalSize <= maxSize {
          units := units + [data[nalStart..nalEnd]];
        } else if nalSize > maxSize {
          return UnitTooLarge(units, nalSize);
        }
        i := nalEnd;
      } else {
        i := i + 1;
      }
    }
    if i + 3 >= |data| {
      SplitShort(HEVC_DETECTOR, data, i);
    }
    Verdict(maxUnits, maxSize, all, units, Split(HEVC_DETECTOR, data, i));
    return if |units| >= maxUnits then TooManyUnits(units) else Found(units);
  }

  method HevcCode(data: Bytes, i: nat) returns (startCodeLen: nat)
    requires i < |data| - 3
    ensures startCodeLen == CodeAt(HEVC_DETECTOR.outer, data, i)
  {
    startCodeLen := 0;
    if data[i] == 0 && data[i + 1] == 0 {
      if data[i + 2] == 1 {
        startCodeLen := 3;
      } else if data[i + 2] == 0 && data[i + 3] == 1 {
        startCodeLen := 4;
      }
    }
  }

  method HevcNext(data: Bytes, nalStart: nat) returns (nalEnd: nat)
    requires nalStart <= |data|
    ensures nalEnd == NextCode(HEVC_DETECTOR.inner, data, nalStart)
  {
    nalEnd := |data|;
    var j := nalStart;
    while j <= |data| - 3
      invariant nalStart <= j <= |data| && NextCode(HEVC_DETECTOR.inner, data, nalStart) == NextCode(HEVC_DETECTOR.inner, data, j)
    {
      if data[j] == 0 && data[j + 1] == 0 && data[j + 2] == 1 {
        return j;
      }
      if j + 3 < |data| && data[j] == 0 && data[j + 1] == 0 && data[j + 2] == 0 && data[j + 3] == 1 {
        return j;
      }
      j := j + 1;
    }
    NextShort(HEVC_DETECTOR.inner, data, j);
  }

  // The byte stream format.

  function StartCode(long: bool): (c: Bytes)
    ensures |c| == if long then 4 else 3
  {
    if long then [0, 0, 0, 1] else [0, 0, 1]
  }

  /** Units, each after a start code of four bytes where `long` says so and of three bytes elsewhere. */
  function Join(units: seq<Bytes>, long: seq<bool>): (data: Bytes)
    requires |units| == |long|
    decreases |units|
  {
    if units == [] then [] else StartCode(long[0]) + units[0] + Join(units[1..], long[1..])
  }

  /** What the standard demands of a unit: emulation prevention keeps start codes out of it, and it does not end in a zero. */
  ghost predicate WellFormed(u: Bytes) {
    && u != [] && u[|u| - 1] != 0
    && forall i :: 0 <= i && i + 2 < |u| ==> !(u[i] == 0 && u[i + 1] == 0 && u[i + 2] == 1)
  }

  ghost predicate AllWellFormed(units: seq<Bytes>)
    decreases |units|
  {
    units == [] || (WellFormed(units[0]) && AllWellFormed(units[1..]))
  }

  ghost predicate Tight(m: Margins) { m.three <= 1 && m.four <= 1 }

  /** The bytes from `at` on. */
  ghost predicate Follows(data: Bytes, at: nat, piece: Bytes) {
    at + |piece| <= |data| && data[at..at + |piece|] == piece
  }

  /** A start code with something behind it is seen. */
  lemma CodeSeen(m: Margins, data: Bytes, at: nat, long: bool)
    requires Tight(m) && Follows(data, at, StartCode(long)) && at + |StartCode(long)| < |data|
    ensures CodeAt(m, data, at) == |StartCode(long)|
  {
    var c := StartCode(long);
    assert forall k :: at <= k < at + |c| ==> data[k] == data[at..at + |c|][k - at];
  }

  /** No start code begins inside a unit, not even one that the bytes after the unit would complete. */
  lemma NoCodeInside(m: Margins, data: Bytes, at: nat, u: Bytes, j: nat)
    requires Follows(data, at, u) && WellFormed(u) && at <= j < at + |u|
    ensures CodeAt(m, data, j) == 0
  {
    assert forall k :: at <= k < at + |u| ==> data[k] == data[at..at + |u|][k - at] == u[k - at];
    var last := at + |u| - 1;
    assert data[last] != 0;
    if j + 2 <= last {
      var i := j - at;
      assert !(u[i] == 0 && u[i + 1] == 0 && u[i + 2] == 1);
      if j + 3 <= last {
        assert !(u[i + 1] == 0 && u[i + 1 + 1] == 0 && u[i + 1 + 2] == 1);
      }
    }
  }

  /** The search for the next code stops at the end of the unit. */
  lemma {:induction false} NextIsEnd(m: Margins, data: Bytes, at: nat, u: Bytes, j: nat)
    requires Follows(data, at, u) && WellFormed(u) && at <= j <= at + |u|
    requires at + |u| == |data| || CodeAt(m, data, at + |u|) > 0
    ensures NextCode(m, data, j) == at + |u|
    decreases at + |u| - j
  {
    if j < at + |u| {
      NoCodeInside(m, data, at, u, j);
      NextIsEnd(m, data, at, u, j + 1);
    }
  }

  /** Splitting undoes joining, wherever the joined units stand. */
  lemma {:induction false} SplitJoin(s: Splitter, data: Bytes, at: nat, units: seq<Bytes>, long: seq<bool>)
    requires Tight(s.outer) && Tight(s.inner) && |units| == |long|
    requires AllWellFormed(units)
    requires at <= |data| && data[at..] == Join(units, long)
    ensures Split(s, data, at) == units
    decreases |units|
  {
    if units != [] {
      JoinIs(units, long);
      WellFormedParts(units);
      var next := FirstUnit(s, data, at, long[0], units[0], units[1..], long[1..]);
      SplitJoin(s, data, next, units[1..], long[1..]);
    }
  }

  lemma WellFormedParts(units: seq<Bytes>)
    requires AllWellFormed(units) && units != []
    ensures WellFormed(units[0]) && AllWellFormed(units[1..]) && (units[1..] == [] || units[1..][0] != [])
    ensures [units[0]] + units[1..] == units
  {
  }

  lemma JoinIs(units: seq<Bytes>, long: seq<bool>)
    requires |units| == |long| > 0
    ensures Join(units, long) == StartCode(long[0]) + units[0] + Join(units[1..], long[1..])
  {
  }

  lemma FirstUnit(s: Splitter, data: Bytes, at: nat, long: bool, u: Bytes, units: seq<Bytes>, longs: seq<bool>) returns (next: nat)
    requires Tight(s.outer) && Tight(s.inner) && WellFormed(u) && |units| == |longs|
    requires units == [] || units[0] != []
    requires at <= |data| && data[at..] == StartCode(long) + u + Join(units, longs)
    ensures next <= |data| && data[next..] == Join(units, longs)
    ensures Split(s, data, at) == [u] + Split(s, data, next)
  {
    var start := at + |StartCode(long)|;
    next := start + |u|;
    Peel(data, at, StartCode(long), u, Join(units, longs));
    NextSeen(s.inner, data, next, units, longs);
    CodeSeen(s.outer, data, at, long);
    NextIsEnd(s.inner, data, start, u, start);
    UnitAt(s, data, at, start, u);
  }

  lemma Peel(data: Bytes, at: nat, code: Bytes, u: Bytes, rest: Bytes)
    requires at <= |data| && data[at..] == code + u + rest
    ensures Follows(data, at, code) && Follows(data, at + |code|, u) && at + |code| + |u| <= |data|
    ensures data[at + |code| + |u|..] == rest
  {
    var tail := data[at..];
    assert data[at..at + |code|] == tail[..|code|] == code;
    assert data[at + |code|..at + |code| + |u|] == tail[|code|..|code| + |u|] == u;
    assert data[at + |code| + |u|..] == tail[|code| + |u|..] == rest;
  }

  /** A start code and a unit up to the next code or the end. */
  lemma UnitAt(s: Splitter, data: Bytes, at: nat, start: nat, u: Bytes)
    requires at < start == at + CodeAt(s.outer, data, at)
    requires u != [] && Follows(data, start, u) && NextCode(s.inner, data, start) == start + |u|
    ensures Split(s, data, at) == [u] + Split(s, data, start + |u|)
  {
  }

  /** What follows a unit is the end or a start code that is seen. */
  lemma NextSeen(m: Margins, data: Bytes, at: nat, units: seq<Bytes>, longs: seq<bool>)
    requires Tight(m) && |units| == |longs| && (units == [] || units[0] != [])
    requires at <= |data| && data[at..] == Join(units, longs)
    ensures at == |data| || CodeAt(m, data, at) > 0
  {
    if units != [] {
      Peel(data, at, StartCode(longs[0]), units[0], Join(units[1..], longs[1..]));
      CodeSeen(m, data, at, longs[0]);
    }
  }

  /** All three splitters give back exactly the units that were joined; the detectors exactly when their caps allow it. */
  lemma RoundTrip(units: seq<Bytes>, long: seq<bool>, maxUnits: nat, maxSize: nat)
    requires |units| == |long| && AllWellFormed(units)
    ensures var data := Join(units, long);
            && OrWhole(Split(ASSEMBLER, data, 0), data) == units
            && (|units| < maxUnits && (forall u :: u in units ==> |u| <= maxSize) <==>
                Capped(maxUnits, maxSize, [], Split(H264_DETECTOR, data, 0)) == Found(units))
            && (|units| < maxUnits && (forall u :: u in units ==> |u| <= maxSize) <==>
                Capped(maxUnits, maxSize, [], Split(HEVC_DETECTOR, data, 0)) == Found(units))
  {
    var data := Join(units, long);
    assert data[0..] == data;
    SplitJoin(ASSEMBLER, data, 0, units, long);
    SplitJoin(H264_DETECTOR, data, 0, units, long);
    SplitJoin(HEVC_DETECTOR, data, 0, units, long);
    CapsAreExact(maxUnits, maxSize, [], units);
    assert [] + units == units;
  }

  // Where the splitters differ.

  /** The assembler's search for the next code runs past a code with nothing behind it. */
  lemma {:induction false} NextRunsPast(data: Bytes, at: nat, u: Bytes, last: bool, j: nat)
    requires Follows(data, at, u) && WellFormed(u) && at <= j <= at + |u|
    requires Follows(data, at + |u|, StartCode(last)) && |data| == at + |u| + |StartCode(last)|
    ensures NextCode(ASSEMBLER.inner, data, j) == |data|
    decreases at + |u| - j
  {
    if j < at + |u| {
      NoCodeInside(ASSEMBLER.inner, data, at, u, j);
      NextRunsPast(data, at, u, last, j + 1);
    } else if last {
      assert data[j + 2] == data[j..j + 4][2] == 0;
      NextShort(ASSEMBLER.inner, data, j + 1);
    } else {
      NextShort(ASSEMBLER.inner, data, j);
    }
  }

  /** The detectors stop at it. */
  lemma NextStops(data: Bytes, at: nat, u: Bytes, last: bool)
    requires Follows(data, at, u) && WellFormed(u)
    requires Follows(data, at + |u|, StartCode(last)) && |data| == at + |u| + |StartCode(last)|
    ensures CodeAt(Margins(0, 0), data, at + |u|) == |StartCode(last)|
    ensures NextCode(Margins(0, 0), data, at) == at + |u|
  {
    var i, c := at + |u|, StartCode(last);
    assert forall k :: i <= k < i + |c| ==> data[k] == data[i..i + |c|][k - i] == c[k - i];
    NextIsEnd(Margins(0, 0), data, at, u, at);
  }

  /** A start code with nothing behind it belongs to the unit before it for the assembler, and is dropped by the detectors. */
  lemma TrailingCode(u: Bytes, long: bool, last: bool)
    requires WellFormed(u)
    ensures var data := StartCode(long) + u + StartCode(last);
            && Split(ASSEMBLER, data, 0) == [u + StartCode(last)]
            && Split(H264_DETECTOR, data, 0) == [u] && Split(HEVC_DETECTOR, data, 0) == [u]
  {
    var data, at, end := StartCode(long) + u + StartCode(last), |StartCode(long)|, |StartCode(long)| + |u|;
    LaidOut(StartCode(long), u, StartCode(last));
    NextRunsPast(data, at, u, last, at);
    NextStops(data, at, u, last);
    NothingBehind(data, end, last);
    FirstIs(ASSEMBLER, data, long, |data|, u + StartCode(last), []);
    FirstIs(H264_DETECTOR, data, long, end, u, []);
    FirstIs(HEVC_DETECTOR, data, long, end, u, []);
  }

  lemma LaidOut(c: Bytes, u: Bytes, d: Bytes)
    ensures var data := c + u + d;
            && Follows(data, 0, c) && Follows(data, |c|, u) && Follows(data, |c| + |u|, d)
            && data[|c|..] == u + d && data[|c|..|c| + |u|] == u && data[|c|..|data|] == u + d
  {
    Associative(c, u, d);
    var data := c + u + d;
    assert data == c + (u + d);
    assert data[|c|..] == u + d;
    assert data[|c| + |u|..] == d;
  }

  lemma FirstIs(s: Splitter, data: Bytes, long: bool, end: nat, unit: Bytes, rest: seq<Bytes>)
    requires Tight(s.outer) && Follows(data, 0, StartCode(long)) && |StartCode(long)| < |data|
    requires end == NextCode(s.inner, data, |StartCode(long)|) && unit != [] && data[|StartCode(long)|..end] == unit && Split(s, data, end) == rest
    ensures Split(s, data, 0) == [unit] + rest
  {
    CodeSeen(s.outer, data, 0, long);
  }

  /** At a last code nothing is left for the detectors. */
  lemma NothingBehind(data: Bytes, end: nat, last: bool)
    requires Follows(data, end, StartCode(last)) && |data| == end + |StartCode(last)|
    ensures Split(H264_DETECTOR, data, end) == [] && Split(HEVC_DETECTOR, data, end) == []
  {
    var c := StartCode(last);
    assert forall k :: end <= k < end + |c| ==> data[k] == data[end..end + |c|][k - end] == c[k - end];
    assert Split(H264_DETECTOR, data, |data|) == [] && Split(HEVC_DETECTOR, data, |data|) == [];
    assert NextCode(H264_DETECTOR.inner, data, |data|) == |data|;
    if !last {
      SplitShort(HEVC_DETECTOR, data, end);
    }
  }

  /** Bytes in which no start code begins are passed over in front of the first unit; without any code at all the detectors find
      nothing, and the assembler takes the data for one unit. */
  lemma {:induction false} NoiseInFront(s: Splitter, data: Bytes, i: nat, at: nat)
    requires i <= at <= |data| && forall j :: i <= j < at ==> CodeAt(s.outer, data, j) == 0
    ensures Split(s, data, i) == Split(s, data, at)
    ensures at == |data| ==> Split(s, data, i) == [] && (i == 0 && data != [] ==> OrWhole(Split(s, data, 0), data) == [data])
    decreases at - i
  {
    if i < at {
      NoiseInFront(s, data, i + 1, at);
    }
  }
}
