/** The orbit state-vector merge of the Sentinel-1 burst concatenation script: read the state
    vectors of two GAMMA `.par` files of temporally adjacent acquisitions, keep the vectors of
    the second that the first does not hold, and rewrite the second file's state-vector block
    with the new count, the shifted start time and re-indexed fixed-width vector lines.

    A file is the sequence of its lines exactly as Python's file iteration yields them (each
    with its newline); a directory listing is the sequence of its names. */
module S1Cat {
  import opened Wrappers
  import opened Seqs
  import opened Text

  const PositionKey := "state_vector_position_"
  const VelocityKey := "state_vector_velocity_"
  const CountKey := "number_of_state_vectors"
  const TimeKey := "time_of_first_state_vector"

  /** The exceptions the merge can raise. */
  datatype ParError =
    | NothingNew          // `nonrepeated_state_vector[0]` on an empty list (IndexError)
    | NoTimeField         // `re.split(r'\s+', line)[1]` on a line without whitespace (IndexError)
    | BadTime(text: string)  // `float(text)` rejects the start-time text (ValueError)
    | ShortVector         // a kept vector has fewer than three fields (IndexError)
    | NoColon             // `l.split(':')[1]` on a line without a colon (IndexError)

  // ---------------------------------------------------------------- reading state vectors

  /** Fields 1 to 3 of a state-vector line: `re.split(r'\s+', line)[1:4]`, which holds fewer
      than three strings when the line has fewer fields. Vectors are compared as these strings. */
  type Vector = seq<string>

  predicate IsVectorLine(line: string)
  {
    StartsWith(line, PositionKey) || StartsWith(line, VelocityKey)
  }

  function VectorFields(line: string): Vector
  {
    Slice(SplitWs(line), 1, 4)
  }

  /** The state vectors a file holds, line by line in file order. */
  function StateVectors(lines: seq<string>): seq<Vector>
  {
    if lines == [] then []
    else (if IsVectorLine(lines[0]) then [VectorFields(lines[0])] else []) + StateVectors(lines[1..])
  }

  /** The state vectors of two pieces of a file are those of the first, then those of the second. */
  lemma {:induction false} StateVectorsAppend(a: seq<string>, b: seq<string>)
    ensures StateVectors(a + b) == StateVectors(a) + StateVectors(b)
  {
    if a == [] {
      assert a + b == b;
    } else {
      assert (a + b)[0] == a[0];
      assert (a + b)[1..] == a[1..] + b;
      StateVectorsAppend(a[1..], b);
    }
  }

  /** The state vectors of a file are the fields of its state-vector lines, one per line: the
      filter-then-split that `get_state_vector` performs. */
  lemma {:induction false} StateVectorsByFilter(lines: seq<string>)
    ensures |StateVectors(lines)| == |Filter(IsVectorLine, lines)|
    ensures forall k :: 0 <= k < |StateVectors(lines)| ==>
              StateVectors(lines)[k] == VectorFields(Filter(IsVectorLine, lines)[k])
  {
    if lines != [] {
      StateVectorsByFilter(lines[1..]);
    }
  }

  /** get_state_vector: collect the lines that start with `state_vector_position_` or
      `state_vector_velocity_`, then split each. */
  method GetStateVector(lines: seq<string>) returns (sv: seq<Vector>)
    ensures sv == StateVectors(lines)
  {
    var temp: seq<string> := [];
    for i := 0 to |lines|
      invariant temp == Filter(IsVectorLine, lines[..i])
    {
      TakeOneMore(lines, i);
      FilterAppend(IsVectorLine, lines[..i], [lines[i]]);
      if IsVectorLine(lines[i]) {
        temp := temp + [lines[i]];
      }
    }
    assert lines[..|lines|] == lines;
    sv := [];
    for i := 0 to |temp|
      invariant |sv| == i
      invariant forall k :: 0 <= k < i ==> sv[k] == VectorFields(temp[k])
    {
      sv := sv + [VectorFields(temp[i])];
    }
    StateVectorsByFilter(lines);
  }

  // ---------------------------------------------------------------- the non-repeated vectors

  /** The vectors of `sv2` that `sv1` does not hold, in `sv2`'s order (exact comparison). */
  function NewVectors(sv1: seq<Vector>, sv2: seq<Vector>): seq<Vector>
  {
    Filter(v => v !in sv1, sv2)
  }

  /** The offset the merge reports: 1 when `sv2` is empty (the loop never runs), otherwise the
      LAST position in `sv2` of the first new vector (the loop has no `break`). */
  function StartIndex(sv1: seq<Vector>, sv2: seq<Vector>): int
    requires sv2 == [] || NewVectors(sv1, sv2) != []
  {
    if sv2 == [] then 1 else LastIndex(sv2, NewVectors(sv1, sv2)[0])
  }

  /** get_nonrepeated_state_vector: the new vectors and the offset where they begin. It fails
      exactly when `sv2` has vectors and all of them repeat ones of `sv1`. */
  method GetNonrepeatedStateVector(sv1: seq<Vector>, sv2: seq<Vector>)
    returns (r: Result<(seq<Vector>, int), ParError>)
    ensures r.Err? <==> sv2 != [] && forall v :: v in sv2 ==> v in sv1
    ensures r.Err? ==> r.error == NothingNew
    ensures r.Ok? ==> r.value == (NewVectors(sv1, sv2), StartIndex(sv1, sv2))
  {
    var nonrepeated: seq<Vector> := [];
    var index := 1;
    for i := 0 to |sv2|
      invariant nonrepeated == NewVectors(sv1, sv2[..i])
    {
      TakeOneMore(sv2, i);
      FilterAppend(v => v !in sv1, sv2[..i], [sv2[i]]);
      if sv2[i] !in sv1 {
        nonrepeated := nonrepeated + [sv2[i]];
      }
    }
    assert sv2[..|sv2|] == sv2;
    for i := 0 to |sv2|
      invariant nonrepeated == NewVectors(sv1, sv2)
      invariant i > 0 ==> nonrepeated != []
      invariant i == 0 ==> index == 1
      invariant i > 0 ==> index == if nonrepeated[0] in sv2[..i] then LastIndex(sv2[..i], nonrepeated[0]) else 1
    {
      if nonrepeated == [] {
        assert sv2[i] in sv2;
        return Err(NothingNew);
      }
      var first := nonrepeated[0];
      TakeOneMore(sv2, i);
      assert sv2[..i + 1][..i] == sv2[..i];
      assert first in sv2[..i + 1] <==> first in sv2[..i] || sv2[i] == first;
      if sv2[i] == first {
        index := i;
      }
    }
    if sv2 != [] {
      assert nonrepeated[0] in sv2;
    } else {
      assert forall v :: v in sv2 ==> v in sv1;
    }
    return Ok((nonrepeated, index));
  }

  /** When the second file's vectors are the first file's followed by a suffix whose first
      vector is new, the new vectors are those of the suffix, starting with its first vector;
      when no vector of the suffix repeats one of the first file, they are the whole suffix. */
  lemma AppendedNew(sv1: seq<Vector>, suffix: seq<Vector>)
    requires suffix != [] && suffix[0] !in sv1
    ensures NewVectors(sv1, sv1 + suffix) == NewVectors(sv1, suffix)
    ensures NewVectors(sv1, suffix) != [] && NewVectors(sv1, suffix)[0] == suffix[0]
    ensures (forall v :: v in suffix ==> v !in sv1) ==> NewVectors(sv1, sv1 + suffix) == suffix
  {
    var p := (v: Vector) => v !in sv1;
    FilterAppend(p, sv1, suffix);
    FilterNone(p, sv1);
    assert [] + NewVectors(sv1, suffix) == NewVectors(sv1, suffix);
    if forall v :: v in suffix ==> v !in sv1 {
      FilterAll(p, suffix);
    }
  }

  /** ... and when that first vector occurs only once in the suffix, the merge starts exactly
      at the suffix: the offset is the length of the shared prefix. */
  lemma AppendedSuffix(sv1: seq<Vector>, suffix: seq<Vector>)
    requires suffix != [] && suffix[0] !in sv1 && suffix[0] !in suffix[1..]
    ensures NewVectors(sv1, sv1 + suffix) != [] && StartIndex(sv1, sv1 + suffix) == |sv1|
  {
    AppendedNew(sv1, suffix);
    var s := sv1 + suffix;
    forall j | |sv1| < j < |s|
      ensures s[j] != suffix[0]
    {
      assert s[j] == suffix[1..][j - |sv1| - 1];
    }
    LastIndexIs(s, suffix[0], |sv1|);
  }

  /** When the two files share no vector, every vector of the second is new, and the offset is
      0 as long as its first vector does not occur again. */
  lemma NoSharedVectors(sv1: seq<Vector>, sv2: seq<Vector>)
    requires sv2 != [] && forall v :: v in sv2 ==> v !in sv1
    ensures NewVectors(sv1, sv2) == sv2
    ensures sv2[0] !in sv2[1..] ==> StartIndex(sv1, sv2) == 0
  {
    FilterAll(v => v !in sv1, sv2);
    assert forall j :: 0 < j < |sv2| ==> sv2[j] == sv2[1..][j - 1];
  }

  // ---------------------------------------------------------------- header and start time

  predicate IsCountLine(line: string)
  {
    StartsWith(line, CountKey)
  }

  predicate IsTimeLine(line: string)
  {
    StartsWith(line, TimeKey)
  }

  /** The file's text up to, not including, its first `number_of_state_vectors` line. */
  function Header(lines: seq<string>): string
  {
    Flatten(lines[..FirstWhere(IsCountLine, lines)])
  }

  /** get_content: concatenate lines until the first one that starts with
      `number_of_state_vectors`. */
  method GetContent(lines: seq<string>) returns (content: string)
    ensures content == Header(lines)
  {
    content := "";
    var i := 0;
    while i < |lines|
      invariant i <= |lines|
      invariant content == Flatten(lines[..i])
      invariant forall j :: 0 <= j < i ==> !IsCountLine(lines[j])
    {
      if !IsCountLine(lines[i]) {
        TakeOneMore(lines, i);
        FlattenAppend(lines[..i], [lines[i]]);
        FlattenSingle(lines[i]);
        content := content + lines[i];
      } else {
        break;
      }
      i := i + 1;
    }
    assert FirstWhere(IsCountLine, lines) == i;
  }

  /** A file without a `number_of_state_vectors` line is its own header. */
  lemma HeaderStopsAtCount(lines: seq<string>)
    ensures (forall j :: 0 <= j < |lines| ==> !IsCountLine(lines[j])) ==> Header(lines) == Flatten(lines)
  {
    if forall j :: 0 <= j < |lines| ==> !IsCountLine(lines[j]) {
      assert lines[..|lines|] == lines;
    }
  }

  /** Field 1 of a line split at whitespace, or "" when it has no such field. */
  function SecondField(line: string): string
  {
    var f := SplitWs(line);
    if |f| >= 2 then f[1] else ""
  }

  /** The start-time text of a file: field 1 of its LAST `time_of_first_state_vector` line, or
      "" when it has none. */
  function TimeText(lines: seq<string>): string
  {
    if lines == [] then ""
    else if IsTimeLine(lines[|lines| - 1]) then SecondField(lines[|lines| - 1])
    else TimeText(lines[..|lines| - 1])
  }

  /** One more line changes the start-time text exactly when it is a time line. */
  lemma TimeTextSnoc(lines: seq<string>, line: string)
    ensures TimeText(lines + [line]) == if IsTimeLine(line) then SecondField(line) else TimeText(lines)
  {
    assert (lines + [line])[..|lines|] == lines;
  }

  /** A `time_of_first_state_vector` line without a field 1. */
  predicate MissingTime(line: string)
  {
    IsTimeLine(line) && |SplitWs(line)| < 2
  }

  /** get_time_of_first_state_vector: it fails as soon as a matching line has no field 1. */
  method GetTimeOfFirstStateVector(lines: seq<string>) returns (r: Result<string, ParError>)
    ensures r.Err? <==> exists k :: 0 <= k < |lines| && MissingTime(lines[k])
    ensures r.Err? ==> r.error == NoTimeField
    ensures r.Ok? ==> r.value == TimeText(lines)
  {
    var time := "";
    for i := 0 to |lines|
      invariant forall k :: 0 <= k < i ==> !MissingTime(lines[k])
      invariant time == TimeText(lines[..i])
    {
      TimeTextSnoc(lines[..i], lines[i]);
      TakeOneMore(lines, i);
      if IsTimeLine(lines[i]) {
        var fields := SplitWs(lines[i]);
        if |fields| < 2 {
          return Err(NoTimeField);
        }
        time := fields[1];
      }
    }
    assert lines[..|lines|] == lines;
    return Ok(time);
  }

  // ---------------------------------------------------------------- read_gamma_par

  /** The value of a `key: value` line: the text between its first and second colon, stripped. */
  function ValueOf(line: string): string
  {
    var pieces := SplitOn(line, ':');
    if |pieces| >= 2 then Strip(pieces[1]) else ""
  }

  /** read_gamma_par's value: that of the LAST line holding `keyword` exactly once, or "". */
  function ParValue(lines: seq<string>, keyword: string): string
  {
    if lines == [] then ""
    else if Count(lines[|lines| - 1], keyword) == 1 then ValueOf(lines[|lines| - 1])
    else ParValue(lines[..|lines| - 1], keyword)
  }

  /** One more line changes the value exactly when it holds the keyword once. */
  lemma ParValueSnoc(lines: seq<string>, line: string, keyword: string)
    ensures ParValue(lines + [line], keyword)
            == if Count(line, keyword) == 1 then ValueOf(line) else ParValue(lines, keyword)
  {
    assert (lines + [line])[..|lines|] == lines;
  }

  /** read_gamma_par: it fails as soon as a line holding the keyword once has no colon. */
  method ReadGammaPar(lines: seq<string>, keyword: string) returns (r: Result<string, ParError>)
    ensures r.Err? <==> exists k :: 0 <= k < |lines| && Count(lines[k], keyword) == 1 && ':' !in lines[k]
    ensures r.Err? ==> r.error == NoColon
    ensures r.Ok? ==> r.value == ParValue(lines, keyword)
  {
    var value := "";
    for i := 0 to |lines|
      invariant forall k :: 0 <= k < i && Count(lines[k], keyword) == 1 ==> ':' in lines[k]
      invariant value == ParValue(lines[..i], keyword)
    {
      ParValueSnoc(lines[..i], lines[i], keyword);
      TakeOneMore(lines, i);
      var step := ReadParLine(lines[i], keyword, value);
      if step.Err? {
        return Err(NoColon);
      }
      value := step.value;
    }
    assert lines[..|lines|] == lines;
    return Ok(value);
  }

  /** The body of read_gamma_par's loop for one line: a line holding the keyword once replaces
      the value with its own, and fails when it has no colon; any other line keeps the value. */
  method ReadParLine(line: string, keyword: string, value: string) returns (r: Result<string, ParError>)
    ensures r.Err? <==> Count(line, keyword) == 1 && ':' !in line
    ensures r.Err? ==> r.error == NoColon
    ensures r.Ok? ==> r.value == if Count(line, keyword) == 1 then ValueOf(line) else value
  {
    if Count(line, keyword) == 1 {
      var tmp := SplitOn(line, ':');
      if |tmp| < 2 {
        return Err(NoColon);
      }
      return Ok(Strip(tmp[1]));
    }
    return Ok(value);
  }

  /** A line that holds a keyword with a colon in it holds a colon itself. */
  lemma ColonKeywordLine(line: string, keyword: string)
    requires ':' in keyword && Count(line, keyword) == 1
    ensures ':' in line
  {
    CountPositive(line, keyword);
    var p :| 0 <= p <= |line| && OccursAt(line, keyword, p);
    var c :| 0 <= c < |keyword| && keyword[c] == ':';
    assert line[p..p + |keyword|][c] == line[p + c];
  }

  /** A keyword that itself holds a colon (as `range_samples:` does) cannot make
      read_gamma_par fail. */
  lemma ColonKeywordNeverFails(lines: seq<string>, keyword: string)
    requires ':' in keyword
    ensures forall k :: 0 <= k < |lines| && Count(lines[k], keyword) == 1 ==> ':' in lines[k]
  {
    forall k | 0 <= k < |lines| && Count(lines[k], keyword) == 1 ensures ':' in lines[k] {
      ColonKeywordLine(lines[k], keyword);
    }
  }

  /** The value read from a `key: value` line holds no colon and is stripped. */
  lemma ValueIsStripped(line: string)
    ensures ':' !in ValueOf(line)
    ensures ValueOf(line) == [] || (!IsSpace(ValueOf(line)[0]) && !IsSpace(ValueOf(line)[|ValueOf(line)| - 1]))
  {
    var pieces := SplitOn(line, ':');
    SplitOnJoin(line, ':');
    if |pieces| >= 2 {
      assert pieces[1] in pieces;
      StripKeeps(pieces[1], ':');
    }
  }

  // ---------------------------------------------------------------- writing the new file

  /** The merged parameter file as gen_new_par writes it: the header copied verbatim, the count
      line, the start time (its text is left out), the interval line, the vector lines. */
  datatype NewPar = NewPar(header: string, countLine: string, time: real, intervalLine: string,
                           vectorLines: seq<string>)

  const IntervalLine := "state_vector_interval:              10.000000   s\n"
  const PositionUnits := "   m   m   m\n"
  const VelocityUnits := "   m/s m/s m/s\n"

  function CountLine(n: nat): string
  {
    CountKey + ":" + (RJust(NatToString(n), 21) + "\n")
  }

  /** The pieces the script concatenates: `key + str(i) + ':'`, the three fields right-justified
      to 15, 16 and 16 columns, then the units. */
  function VectorLine(key: string, i: nat, v: Vector, units: string): string
    requires |v| >= 3
  {
    Flatten([key, NatToString(i), ":", RJust(v[0], 15), RJust(v[1], 16), RJust(v[2], 16), units])
  }

  /** The vector line as a label followed by its columns. */
  lemma VectorLineText(key: string, i: nat, v: Vector, units: string)
    requires |v| >= 3
    ensures VectorLine(key, i, v, units)
            == (key + NatToString(i) + ":") + (RJust(v[0], 15) + (RJust(v[1], 16) + (RJust(v[2], 16) + units)))
  {
    var d, a, b, c := NatToString(i), RJust(v[0], 15), RJust(v[1], 16), RJust(v[2], 16);
    var parts := [key, d, ":", a, b, c, units];
    FlattenCons(parts);
    FlattenCons(parts[1..]);
    FlattenCons(parts[2..]);
    FlattenCons(parts[3..]);
    FlattenCons(parts[4..]);
    FlattenCons(parts[5..]);
    FlattenSingle(units);
    assert parts[6..] == [units];
  }

  /** The first `count` pairs of `nr` exist and each of their vectors has three fields. */
  predicate Pairable(nr: seq<Vector>, count: nat)
  {
    2 * count <= |nr|
    && (count == 0 || (Pairable(nr, count - 1) && |nr[2 * count - 2]| >= 3 && |nr[2 * count - 1]| >= 3))
  }

  /** Pairable, stated over positions: every vector among the first `2 count` has three fields. */
  lemma {:induction false} PairableAll(nr: seq<Vector>, count: nat)
    ensures Pairable(nr, count) <==> 2 * count <= |nr| && forall k :: 0 <= k < 2 * count ==> |nr[k]| >= 3
  {
    if count > 0 {
      PairableAll(nr, count - 1);
    }
  }

  /** The two lines written for pair `j` of `nr` (counting from 0): its position `nr[2 j]` and
      its velocity `nr[2 j + 1]`, both numbered `j + 1`. */
  function PairText(nr: seq<Vector>, j: nat): (lines: seq<string>)
    requires 2 * j + 1 < |nr| && |nr[2 * j]| >= 3 && |nr[2 * j + 1]| >= 3
  {
    [VectorLine(PositionKey, j + 1, nr[2 * j], PositionUnits),
     VectorLine(VelocityKey, j + 1, nr[2 * j + 1], VelocityUnits)]
  }

  /** The vector block written for the first `count` pairs of `nr`. */
  function PairLines(nr: seq<Vector>, count: nat): (lines: seq<string>)
    requires Pairable(nr, count)
    ensures |lines| == 2 * count
  {
    if count == 0 then [] else PairLines(nr, count - 1) + PairText(nr, count - 1)
  }

  /** One short vector among the first `count` pairs makes the whole prefix unpairable. */
  lemma {:induction false} PairableFails(nr: seq<Vector>, count: nat, i: nat)
    requires i < count && 2 * count <= |nr|
    requires |nr[2 * i]| < 3 || |nr[2 * i + 1]| < 3
    ensures !Pairable(nr, count)
  {
    if i < count - 1 {
      PairableFails(nr, count - 1, i);
    }
  }

  lemma PairLinesSnoc(nr: seq<Vector>, j: nat)
    requires Pairable(nr, j + 1)
    ensures PairLines(nr, j + 1) == PairLines(nr, j) + PairText(nr, j)
  {
  }

  /** The merge's new vector count is half the number of new vectors, rounded down: an odd
      trailing vector is never written. */
  function PairCount(nr: seq<Vector>): (count: nat)
    ensures 2 * count <= |nr| < 2 * count + 2
  {
    |nr| / 2
  }

  /** A vector the writer can lay out so that it reads back: three non-empty fields without
      whitespace, each narrower than its column, so at least one space separates the columns. */
  predicate FitsColumns(v: Vector)
  {
    |v| == 3 && v[0] != [] && v[1] != [] && v[2] != []
    && NoSpace(v[0]) && NoSpace(v[1]) && NoSpace(v[2])
    && |v[0]| < 15 && |v[1]| < 16 && |v[2]| < 16
  }

  lemma LabelNoSpace(key: string, i: nat)
    requires NoSpace(key)
    ensures NoSpace(key + NatToString(i) + ":")
  {
    var d := NatToString(i);
    var h := key + d + ":";
    forall k | 0 <= k < |h|
      ensures !IsSpace(h[k])
    {
      if k < |key| {
        assert h[k] == key[k];
      } else if k < |key| + |d| {
        assert h[k] == d[k - |key|];
      }
    }
  }

  /** Neither key holds whitespace (proved on its own: the two literals are costly together). */
  lemma KeysNoSpace()
    ensures NoSpace(PositionKey) && NoSpace(VelocityKey)
  {
  }

  /** Both unit suffixes are a run of spaces followed by text that does not start with one. */
  lemma UnitsSplit(units: string)
    requires units == PositionUnits || units == VelocityUnits
    ensures units == "   " + units[3..] && !IsSpace(units[3..][0])
  {
  }

  /** A word, then three words right-justified in columns of 15, 16 and 16, then whitespace and
      a tail: the leading word and the three words are the first four pieces. */
  lemma ColumnsReadBack(lead: string, a: string, b: string, c: string, gap: string, tail: string)
    requires NoSpace(lead) && NoSpace(a) && NoSpace(b) && NoSpace(c)
    requires a != [] && b != [] && c != [] && |a| < 15 && |b| < 16 && |c| < 16
    requires 1 <= |gap| && AllSpace(gap) && (tail == [] || !IsSpace(tail[0]))
    ensures SplitWs(lead + (RJust(a, 15) + (RJust(b, 16) + (RJust(c, 16) + (gap + tail)))))
            == [lead] + ([a] + ([b] + ([c] + SplitWs(tail))))
  {
    var units := gap + tail;
    var x2 := RJust(c, 16) + units;
    var x1 := RJust(b, 16) + x2;
    SplitWsCons(c, gap, tail);
    SplitWsColumn(b, c, 16, units);
    SplitWsColumn(a, b, 16, x2);
    SplitWsColumn(lead, a, 15, x1);
  }

  lemma SameTriple(r: Vector, v: Vector)
    requires |r| == 3 && |v| == 3 && r[0] == v[0] && r[1] == v[1] && r[2] == v[2]
    ensures r == v
  {
  }

  /** Fields 1 to 3 of a vector laid out in its columns after a leading word are the vector. */
  lemma ColumnsFields(lead: string, v: Vector, gap: string, tail: string)
    requires NoSpace(lead) && FitsColumns(v)
    requires 1 <= |gap| && AllSpace(gap) && (tail == [] || !IsSpace(tail[0]))
    ensures Slice(SplitWs(lead + (RJust(v[0], 15) + (RJust(v[1], 16) + (RJust(v[2], 16) + (gap + tail))))), 1, 4) == v
  {
    ColumnsReadBack(lead, v[0], v[1], v[2], gap, tail);
    var fields := SplitWs(lead + (RJust(v[0], 15) + (RJust(v[1], 16) + (RJust(v[2], 16) + (gap + tail)))));
    assert fields[1] == v[0] && fields[2] == v[1] && fields[3] == v[2];
    var r := Slice(fields, 1, 4);
    assert |r| == 3 && r[0] == v[0] && r[1] == v[1] && r[2] == v[2];
    SameTriple(r, v);
  }

  /** Reading a written vector line back: its fields 1 to 3 are the vector it was made from. */
  lemma VectorLineReadBack(key: string, i: nat, v: Vector, units: string)
    requires NoSpace(key) && FitsColumns(v)
    requires units == PositionUnits || units == VelocityUnits
    ensures VectorFields(VectorLine(key, i, v, units)) == v
  {
    VectorLineText(key, i, v, units);
    LabelNoSpace(key, i);
    UnitsSplit(units);
    ColumnsFields(key + NatToString(i) + ":", v, "   ", units[3..]);
  }

  /** Every written vector line is one that get_state_vector collects. */
  lemma WrittenIsVectorLine(key: string, i: nat, v: Vector, units: string)
    requires key == PositionKey || key == VelocityKey
    requires |v| >= 3
    ensures IsVectorLine(VectorLine(key, i, v, units))
  {
    var line := VectorLine(key, i, v, units);
    VectorLineText(key, i, v, units);
    assert line[..|key|] == key;
  }

  lemma TwoVectorLines(p: string, q: string)
    requires IsVectorLine(p) && IsVectorLine(q)
    ensures StateVectors([p, q]) == [VectorFields(p), VectorFields(q)]
  {
    assert [p, q][1..] == [q];
    assert [q][1..] == [];
    assert StateVectors([q]) == [VectorFields(q)] + StateVectors([]);
    assert StateVectors([p, q]) == [VectorFields(p)] + StateVectors([q]);
  }

  /** The two lines written for a pair read back as the pair's two vectors. */
  lemma PairTextReadBack(nr: seq<Vector>, j: nat)
    requires 2 * j + 1 < |nr| && FitsColumns(nr[2 * j]) && FitsColumns(nr[2 * j + 1])
    ensures StateVectors(PairText(nr, j)) == [nr[2 * j], nr[2 * j + 1]]
  {
    var p := VectorLine(PositionKey, j + 1, nr[2 * j], PositionUnits);
    var q := VectorLine(VelocityKey, j + 1, nr[2 * j + 1], VelocityUnits);
    KeysNoSpace();
    WrittenIsVectorLine(PositionKey, j + 1, nr[2 * j], PositionUnits);
    WrittenIsVectorLine(VelocityKey, j + 1, nr[2 * j + 1], VelocityUnits);
    VectorLineReadBack(PositionKey, j + 1, nr[2 * j], PositionUnits);
    VectorLineReadBack(VelocityKey, j + 1, nr[2 * j + 1], VelocityUnits);
    TwoVectorLines(p, q);
  }

  /** What gen_new_par writes, get_state_vector reads back: the vector lines of the new file
      hold exactly the new vectors that were paired, in order, provided each fits its columns. */
  lemma {:induction false} PairLinesReadBack(nr: seq<Vector>, count: nat)
    requires Pairable(nr, count)
    requires forall k :: 0 <= k < 2 * count ==> FitsColumns(nr[k])
    ensures StateVectors(PairLines(nr, count)) == nr[..2 * count]
  {
    if count > 0 {
      var j := count - 1;
      PairLinesReadBack(nr, j);
      PairLinesSnoc(nr, j);
      StateVectorsAppend(PairLines(nr, j), PairText(nr, j));
      PairTextReadBack(nr, j);
      TakeTwoMore(nr, 2 * j);
    }
  }

  /** A right-justified number followed by a newline holds no colon. */
  lemma PaddedNoColon(d: string, width: nat)
    requires AllDigits(d)
    ensures ':' !in RJust(d, width) + "\n"
  {
    var pad := Spaces(if |d| < width then width - |d| else 0);
    RJustPad(d, width);
    var f := pad + d + "\n";
    forall k | 0 <= k < |f|
      ensures f[k] != ':'
    {
      if |pad| <= k < |pad| + |d| {
        assert f[k] == d[k - |pad|];
      }
    }
  }

  /** A right-justified number followed by a newline strips to the number. */
  lemma PaddedStrip(d: string, width: nat)
    requires d != [] && AllDigits(d)
    ensures Strip(RJust(d, width) + "\n") == d
  {
    var pad := Spaces(if |d| < width then width - |d| else 0);
    RJustPad(d, width);
    assert NoSpace(d);
    StripPadded(pad, d, "\n");
  }

  /** A `key:value` line whose key and value hold no colon reads back as the stripped value. */
  lemma KeyValueReadBack(key: string, field: string)
    requires ':' !in key && ':' !in field
    ensures ValueOf(key + ":" + field) == Strip(field)
  {
    SplitOnAt(key, field, ':');
  }

  /** The count line reads back, through read_gamma_par's `key: value` rule, as the count. */
  lemma CountLineReadBack(n: nat)
    ensures AllDigits(ValueOf(CountLine(n))) && ParseDigits(ValueOf(CountLine(n))) == n
  {
    PaddedNoColon(NatToString(n), 21);
    PaddedStrip(NatToString(n), 21);
    KeyValueReadBack(CountKey, RJust(NatToString(n), 21) + "\n");
  }

  /** The loop of gen_new_par that writes the vector block: it fails at the first pair holding
      a vector with fewer than three fields. */
  method WriteVectorLines(nr: seq<Vector>, count: nat) returns (r: Result<seq<string>, ParError>)
    requires 2 * count <= |nr|
    ensures r.Ok? <==> Pairable(nr, count)
    ensures r.Ok? ==> r.value == PairLines(nr, count)
    ensures r.Err? ==> r.error == ShortVector
  {
    var vectorLines: seq<string> := [];
    for i := 0 to count
      invariant Pairable(nr, i)
      invariant vectorLines == PairLines(nr, i)
    {
      if |nr[i * 2]| < 3 || |nr[i * 2 + 1]| < 3 {
        PairableFails(nr, count, i);
        return Err(ShortVector);
      }
      PairLinesSnoc(nr, i);
      vectorLines := vectorLines + PairText(nr, i);
    }
    return Ok(vectorLines);
  }

  /** gen_new_par (without the file I/O and the text of the start time). `float` stands for
      Python's `float()` on the start-time text (None: ValueError). Each error is the first one
      the script would raise. */
  method GenNewPar(par1: seq<string>, par2: seq<string>, float: string -> Option<real>)
    returns (r: Result<NewPar, ParError>)
    ensures var sv1, sv2 := StateVectors(par1), StateVectors(par2);
            && (r == Err(NothingNew) <==> sv2 != [] && forall v :: v in sv2 ==> v in sv1)
            && (r.Ok? ==>
                  var nr := NewVectors(sv1, sv2);
                  var count := PairCount(nr);
                  && (sv2 == [] || nr != [])
                  && float(TimeText(par2)).Some?
                  && Pairable(nr, count)
                  && r.value.header == Header(par2)
                  && r.value.countLine == CountLine(count)
                  && r.value.time == float(TimeText(par2)).value + 5.0 * StartIndex(sv1, sv2) as real
                  && r.value.intervalLine == IntervalLine
                  && r.value.vectorLines == PairLines(nr, count))
    ensures var sv1, sv2 := StateVectors(par1), StateVectors(par2);
            r == Err(NoTimeField) <==>
              !(sv2 != [] && forall v :: v in sv2 ==> v in sv1) && exists k :: 0 <= k < |par2| && MissingTime(par2[k])
    ensures r.Err? && r.error.BadTime? ==> r.error.text == TimeText(par2) && float(TimeText(par2)).None?
    ensures r == Err(ShortVector) ==>
              var nr := NewVectors(StateVectors(par1), StateVectors(par2));
              !Pairable(nr, PairCount(nr))
    ensures r.Err? ==> r.error != NoColon
    ensures var sv1, sv2 := StateVectors(par1), StateVectors(par2);
            var reached := !(sv2 != [] && forall v :: v in sv2 ==> v in sv1)
                           && !(exists k :: 0 <= k < |par2| && MissingTime(par2[k]));
            var nr := NewVectors(sv1, sv2);
            && (r.Err? && r.error.BadTime? <==> reached && float(TimeText(par2)).None?)
            && (r == Err(ShortVector) <==> reached && float(TimeText(par2)).Some? && !Pairable(nr, PairCount(nr)))
  {
    var sv1 := GetStateVector(par1);
    var sv2 := GetStateVector(par2);
    var merged := GetNonrepeatedStateVector(sv1, sv2);
    if merged.Err? {
      return Err(merged.error);
    }
    var (nr, index) := merged.value;
    var count := |nr| / 2;

    var timeResult := GetTimeOfFirstStateVector(par2);
    if timeResult.Err? {
      return Err(timeResult.error);
    }
    var timeText := timeResult.value;
    var parsed := float(timeText);
    if parsed.None? {
      return Err(BadTime(timeText));
    }
    var time := parsed.value + (index as real) / 2.0 * 10.0;

    var content := GetContent(par2);

    var block := WriteVectorLines(nr, count);
    if block.Err? {
      return Err(block.error);
    }
    var vectorLines := block.value;
    return Ok(NewPar(content, CountLine(count), time, IntervalLine, vectorLines));
  }

  // ---------------------------------------------------------------- get_date

  /** `re.search(r'\d{8}-', name)`: eight digits followed by a hyphen, anywhere in the name. */
  predicate HasDateDash(name: string)
  {
    exists p: nat | p < |name| :: DateDashAt(name, p)
  }

  predicate DateDashAt(name: string, p: nat)
  {
    p + 9 <= |name| && AllDigits(name[p..p + 8]) && name[p + 8] == '-'
  }

  /** `name[0:8]`: the first eight characters (the date of a `YYYYMMDD-n` directory). */
  function DatePrefix(name: string): string
  {
    Slice(name, 0, 8)
  }

  /** get_date: the distinct eight-character prefixes of the names that hold a date and a
      hyphen, sorted ascending. */
  method GetDate(names: seq<string>) returns (dates: seq<string>)
    ensures StrictlySorted(dates)
    ensures forall d :: d in dates <==> exists k :: 0 <= k < |names| && HasDateDash(names[k]) && d == DatePrefix(names[k])
    ensures forall d :: d in dates ==> |d| == 8
  {
    var found: seq<string> := [];
    for i := 0 to |names|
      invariant Distinct(found)
      invariant forall d :: d in found <==> exists k :: 0 <= k < i && HasDateDash(names[k]) && d == DatePrefix(names[k])
      invariant forall d :: d in found ==> |d| == 8
    {
      if HasDateDash(names[i]) {
        var d := DatePrefix(names[i]);
        if d !in found {
          found := found + [d];
        }
      }
    }
    dates := Sort(found);
    SortDistinct(found);
    forall d
      ensures d in dates <==> d in found
    {
      assert d in multiset(dates) <==> d in multiset(found);
    }
  }
}
