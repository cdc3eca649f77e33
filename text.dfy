/** The Python `str` operations the scripts rely on, over `string` (a sequence of code points):
    prefix and suffix tests, `re.split(r'\s+', ...)`, `rjust`, `str(int)`, `split(':')`,
    `strip`, `count`, `lower`, the ordering of `str` and `sorted`. */
module Text {
  import opened Seqs

  // ---------------------------------------------------------------- characters

  /** Python's `\s` (and what `str.strip()` removes), restricted to ASCII: the space, tab,
      line feed, vertical tab, form feed and carriage return, and the four information
      separators U+001C to U+001F. */
  predicate IsSpace(c: char)
  {
    c == ' ' || '\t' <= c <= '\r' || '\U{001C}' <= c <= '\U{001F}'
  }

  /** Python's `\d`, restricted to ASCII digits. */
  predicate IsDigit(c: char)
  {
    '0' <= c <= '9'
  }

  predicate AllDigits(s: string)
  {
    forall k :: 0 <= k < |s| ==> IsDigit(s[k])
  }

  predicate NoSpace(s: string)
  {
    forall k :: 0 <= k < |s| ==> !IsSpace(s[k])
  }

  predicate AllSpace(s: string)
  {
    forall k :: 0 <= k < |s| ==> IsSpace(s[k])
  }

  // ---------------------------------------------------------------- prefixes, suffixes, slices

  /** `s.startswith(p)` */
  predicate StartsWith(s: string, p: string)
  {
    |p| <= |s| && s[..|p|] == p
  }

  /** `s.endswith(p)` */
  predicate EndsWith(s: string, p: string)
  {
    |p| <= |s| && s[|s| - |p|..] == p
  }

  /** The Python slice `s[i:j]` for non-negative bounds: clamped to the length, it never fails. */
  function Slice<T>(s: seq<T>, i: nat, j: nat): (r: seq<T>)
    ensures |r| == (if j <= |s| then j else |s|) - i || (|r| == 0 && (if j <= |s| then j else |s|) <= i)
    ensures forall k :: 0 <= k < |r| ==> r[k] == s[i + k]
  {
    var hi := if j <= |s| then j else |s|;
    if hi <= i then [] else s[i..hi]
  }

  // ---------------------------------------------------------------- padding

  function Spaces(n: nat): (r: string)
    ensures |r| == n && AllSpace(r) && forall k :: 0 <= k < n ==> r[k] == ' '
  {
    seq(n, _ => ' ')
  }

  /** `s.rjust(width, ' ')`: right-justify in a field of `width` characters. The result is never
      shorter than `s`, ends with `s` unchanged, and everything before it is a space; a string
      already as wide as the field is returned as it is (padding never truncates). */
  function RJust(s: string, width: nat): (r: string)
    ensures |r| == if |s| < width then width else |s|
  {
    if |s| < width then Spaces(width - |s|) + s else s
  }

  /** A right-justified string is a run of spaces followed by `s` itself; none when `s` is
      already as wide as the field. */
  lemma RJustPad(s: string, width: nat)
    ensures RJust(s, width) == Spaces(if |s| < width then width - |s| else 0) + s
  {
    if width <= |s| {
      assert Spaces(0) == [];
    }
  }

  // ---------------------------------------------------------------- decimal text of integers

  function DigitValue(c: char): (d: nat)
    requires IsDigit(c)
    ensures d < 10
  {
    c as int - '0' as int
  }

  function DigitChar(d: nat): (c: char)
    requires d < 10
    ensures IsDigit(c) && DigitValue(c) == d
  {
    ('0' as int + d) as char
  }

  /** The value of a string of decimal digits (most significant first). */
  function ParseDigits(s: string): nat
    requires AllDigits(s)
  {
    if s == [] then 0 else 10 * ParseDigits(s[..|s| - 1]) + DigitValue(s[|s| - 1])
  }

  /** `str(n)` for a non-negative Python int: its decimal digits, with no leading zero; reading
      the digits back gives `n`. */
  function NatToString(n: nat): (s: string)
    ensures 1 <= |s| && AllDigits(s)
    ensures (s[0] == '0') == (n == 0)
    ensures ParseDigits(s) == n
  {
    if n < 10 then [DigitChar(n)]
    else
      var front := NatToString(n / 10);
      assert (front + [DigitChar(n % 10)])[..|front|] == front;
      front + [DigitChar(n % 10)]
  }

  /** `str(i)` for a Python int: a minus sign for negative values, then the digits. */
  function IntToString(i: int): (s: string)
    ensures 1 <= |s|
    ensures (s[0] == '-') == (i < 0)
    ensures forall k :: 0 <= k < |s| ==> IsDigit(s[k]) || (k == 0 && s[k] == '-')
  {
    if i < 0 then "-" + NatToString(-i) else NatToString(i)
  }

  /** Different integers print differently. */
  lemma IntToStringInjective(a: int, b: int)
    requires IntToString(a) == IntToString(b)
    ensures a == b
  {
    if a < 0 && b < 0 {
      assert IntToString(a)[1..] == NatToString(-a);
      assert IntToString(b)[1..] == NatToString(-b);
    } else if a >= 0 && b >= 0 {
      assert ParseDigits(NatToString(a)) == a;
    }
  }

  /** Two strings joined around a separator that the left-hand one does not contain can be
      told apart again: the join is injective. */
  lemma JoinInjective(a: string, b: string, c: string, d: string, sep: char)
    requires sep !in a && sep !in c
    requires a + [sep] + b == c + [sep] + d
    ensures a == c && b == d
  {
    var x := a + [sep] + b;
    FirstIndexAfter(a, sep, b);
    FirstIndexAfter(c, sep, d);
    assert a == x[..|a|] == c;
    assert b == x[|a| + 1..] == d;
  }

  // ---------------------------------------------------------------- re.split(r'\s+', s)

  /** Length of the leading run of non-whitespace. */
  function WordLen(s: string): (n: nat)
    ensures n <= |s|
    ensures forall k :: 0 <= k < n ==> !IsSpace(s[k])
    ensures n < |s| ==> IsSpace(s[n])
  {
    if s == [] || IsSpace(s[0]) then 0 else 1 + WordLen(s[1..])
  }

  /** Length of the leading run of whitespace. */
  function SpaceLen(s: string): (n: nat)
    ensures n <= |s|
    ensures forall k :: 0 <= k < n ==> IsSpace(s[k])
    ensures n < |s| ==> !IsSpace(s[n])
  {
    if s == [] || !IsSpace(s[0]) then 0 else 1 + SpaceLen(s[1..])
  }

  /** `re.split(r'\s+', s)`: the pieces between maximal runs of whitespace. A run at the start
      or at the end gives an empty first or last piece, so `"a  b\n"` splits into
      `["a", "b", ""]`. No piece holds whitespace and every inner piece is non-empty. */
  function SplitWs(s: string): (fields: seq<string>)
    ensures |fields| >= 1
    ensures forall f :: f in fields ==> NoSpace(f)
    ensures (fields[0] != []) == (s != [] && !IsSpace(s[0]))
    ensures forall k :: 0 < k < |fields| - 1 ==> fields[k] != []
    decreases |s|
  {
    var w := WordLen(s);
    if w == |s| then [s]
    else
      var rest := s[w..];
      [s[..w]] + SplitWs(rest[SpaceLen(rest)..])
  }

  /** `s` with its whitespace deleted. */
  function RemoveSpaces(s: string): string
  {
    if s == [] then [] else (if IsSpace(s[0]) then [] else [s[0]]) + RemoveSpaces(s[1..])
  }

  lemma {:induction false} RemoveSpacesAppend(a: string, b: string)
    ensures RemoveSpaces(a + b) == RemoveSpaces(a) + RemoveSpaces(b)
  {
    if a == [] {
      assert a + b == b;
    } else {
      assert (a + b)[0] == a[0];
      assert (a + b)[1..] == a[1..] + b;
      RemoveSpacesAppend(a[1..], b);
    }
  }

  lemma {:induction false} RemoveSpacesOfWord(w: string)
    requires NoSpace(w)
    ensures RemoveSpaces(w) == w
  {
    if w != [] {
      RemoveSpacesOfWord(w[1..]);
    }
  }

  lemma {:induction false} RemoveSpacesOfSpaces(w: string)
    requires AllSpace(w)
    ensures RemoveSpaces(w) == []
  {
    if w != [] {
      RemoveSpacesOfSpaces(w[1..]);
    }
  }

  /** The leading word of `s` is as long as its first run of non-whitespace. */
  lemma WordLenIs(s: string, n: nat)
    requires n <= |s| && NoSpace(s[..n]) && (n < |s| ==> IsSpace(s[n]))
    ensures WordLen(s) == n
  {
    assert forall k :: 0 <= k < n ==> s[..n][k] == s[k];
  }

  lemma SpaceLenIs(s: string, n: nat)
    requires n <= |s| && AllSpace(s[..n]) && (n < |s| ==> !IsSpace(s[n]))
    ensures SpaceLen(s) == n
  {
    assert forall k :: 0 <= k < n ==> s[..n][k] == s[k];
  }

  /** One step of `SplitWs` on text that is not a single word: the leading word, the run of
      whitespace after it, and the rest. */
  lemma SplitWsStep(s: string) returns (w: string, sp: string, t: string)
    requires WordLen(s) < |s|
    ensures NoSpace(w) && 1 <= |sp| && AllSpace(sp) && s == w + sp + t
    ensures SplitWs(s) == [w] + SplitWs(t)
  {
    var n := WordLen(s);
    var rest := s[n..];
    var m := SpaceLen(rest);
    w, sp, t := s[..n], rest[..m], rest[m..];
    assert s == w + sp + t;
  }

  /** Splitting loses only whitespace: the pieces put back together are `s` without its
      whitespace. */
  lemma {:induction false} SplitWsKeepsText(s: string)
    ensures Flatten(SplitWs(s)) == RemoveSpaces(s)
    decreases |s|
  {
    if WordLen(s) == |s| {
      assert NoSpace(s);
      SplitWsWord(s);
      RemoveSpacesOfWord(s);
      FlattenSingle(s);
    } else {
      var w, sp, t := SplitWsStep(s);
      SplitWsKeepsText(t);
      FlattenAppend([w], SplitWs(t));
      FlattenSingle(w);
      RemoveSpacesAppend(w + sp, t);
      RemoveSpacesAppend(w, sp);
      RemoveSpacesOfWord(w);
      RemoveSpacesOfSpaces(sp);
    }
  }

  /** A word, a non-empty run of whitespace, then text that does not start with whitespace:
      the word is the first piece and the rest splits on its own. */
  lemma SplitWsCons(w: string, sp: string, t: string)
    requires NoSpace(w) && 1 <= |sp| && AllSpace(sp)
    requires t == [] || !IsSpace(t[0])
    ensures SplitWs(w + (sp + t)) == [w] + SplitWs(t)
  {
    var s := w + (sp + t);
    assert s[..|w|] == w;
    WordLenIs(s, |w|);
    var rest := s[|w|..];
    assert rest == sp + t;
    assert rest[..|sp|] == sp;
    SpaceLenIs(rest, |sp|);
    assert rest[|sp|..] == t;
  }

  /** A column wider than its text is padding followed by the text. */
  lemma RJustColumn(s: string, width: nat, rest: string)
    requires |s| < width
    ensures RJust(s, width) + rest == Spaces(width - |s|) + (s + rest)
  {
    RJustPad(s, width);
  }

  /** A word, then a column holding another word right-justified, then the rest: the first
      word is a piece of its own and the column's word starts the rest. */
  lemma SplitWsColumn(h: string, w: string, width: nat, rest: string)
    requires NoSpace(h) && NoSpace(w) && w != [] && |w| < width
    ensures SplitWs(h + (RJust(w, width) + rest)) == [h] + SplitWs(w + rest)
  {
    RJustColumn(w, width, rest);
    SplitWsCons(h, Spaces(width - |w|), w + rest);
  }

  /** A word on its own is one piece. */
  lemma SplitWsWord(w: string)
    requires NoSpace(w)
    ensures SplitWs(w) == [w]
  {
    assert w[..|w|] == w;
    WordLenIs(w, |w|);
  }

  // ---------------------------------------------------------------- s.split(sep), s.strip()

  /** Position of the first `c` in `s`, or `|s|` when there is none. */
  function FirstIndex(s: string, c: char): (i: nat)
    ensures i <= |s|
    ensures forall k :: 0 <= k < i ==> s[k] != c
    ensures i < |s| ==> s[i] == c
  {
    if s == [] || s[0] == c then 0 else 1 + FirstIndex(s[1..], c)
  }

  /** The first separator after a piece without one is the one that follows the piece. */
  lemma {:induction false} FirstIndexAfter(a: string, sep: char, b: string)
    requires sep !in a
    ensures FirstIndex(a + [sep] + b, sep) == |a|
  {
    if a != [] {
      assert (a + [sep] + b)[1..] == a[1..] + [sep] + b;
      FirstIndexAfter(a[1..], sep, b);
    }
  }

  /** `pieces[0] + sep + pieces[1] + sep + ...`: the inverse of `SplitOn`. */
  function JoinWith(pieces: seq<string>, sep: char): string
    requires |pieces| >= 1
  {
    if |pieces| == 1 then pieces[0] else pieces[0] + [sep] + JoinWith(pieces[1..], sep)
  }

  /** `s.split(sep)` for a one-character separator: the pieces between its occurrences. There
      is more than one piece exactly when `s` holds the separator. */
  function SplitOn(s: string, sep: char): (pieces: seq<string>)
    ensures |pieces| >= 1
    ensures (|pieces| >= 2) == (sep in s)
    decreases |s|
  {
    var i := FirstIndex(s, sep);
    if i == |s| then
      [s]
    else
      [s[..i]] + SplitOn(s[i + 1..], sep)
  }

  /** No piece holds the separator, and joining the pieces with it gives `s` back. */
  lemma {:induction false} SplitOnJoin(s: string, sep: char)
    ensures forall p :: p in SplitOn(s, sep) ==> sep !in p
    ensures JoinWith(SplitOn(s, sep), sep) == s
    decreases |s|
  {
    var i := FirstIndex(s, sep);
    if i < |s| {
      var tail := SplitOn(s[i + 1..], sep);
      SplitOnJoin(s[i + 1..], sep);
      assert s == s[..i] + [sep] + s[i + 1..];
      assert ([s[..i]] + tail)[1..] == tail;
    }
  }

  /** Number of trailing whitespace characters. */
  function SpaceLenBack(s: string): (n: nat)
    ensures n <= |s|
    ensures forall k :: |s| - n <= k < |s| ==> IsSpace(s[k])
    ensures n < |s| ==> !IsSpace(s[|s| - 1 - n])
  {
    if s == [] || !IsSpace(s[|s| - 1]) then 0 else 1 + SpaceLenBack(s[..|s| - 1])
  }

  /** `s.strip()`: what lies between the leading and the trailing whitespace; it neither
      starts nor ends with whitespace. */
  function Strip(s: string): (r: string)
    ensures r == [] || (!IsSpace(r[0]) && !IsSpace(r[|r| - 1]))
  {
    var i := SpaceLen(s);
    if i == |s| then []
    else
      var j := |s| - SpaceLenBack(s);
      assert i < j;
      s[i..j]
  }

  /** What stripping removes is whitespace at both ends. */
  lemma StripParts(s: string) returns (i: nat)
    ensures i + |Strip(s)| <= |s| && s[i..i + |Strip(s)|] == Strip(s)
    ensures AllSpace(s[..i]) && AllSpace(s[i + |Strip(s)|..])
  {
    i := SpaceLen(s);
    if i == |s| {
      assert s[i..] == [];
    } else {
      var j := |s| - SpaceLenBack(s);
      assert AllSpace(s[..i]) && AllSpace(s[j..]);
    }
  }

  /** Text with one separator between two pieces free of it splits into those two pieces. */
  lemma SplitOnAt(a: string, b: string, sep: char)
    requires sep !in a && sep !in b
    ensures SplitOn(a + [sep] + b, sep) == [a, b]
  {
    var s := a + [sep] + b;
    FirstIndexAfter(a, sep, b);
    assert s[..|a|] == a;
    assert s[|a| + 1..] == b;
    assert FirstIndex(b, sep) == |b|;
  }

  lemma SpaceLenBackIs(s: string, n: nat)
    requires n <= |s| && AllSpace(s[|s| - n..]) && (n < |s| ==> !IsSpace(s[|s| - 1 - n]))
    ensures SpaceLenBack(s) == n
  {
    assert forall k :: |s| - n <= k < |s| ==> s[|s| - n..][k - (|s| - n)] == s[k];
  }

  /** Stripping a word without whitespace padded by whitespace on both sides gives the word. */
  lemma StripPadded(front: string, w: string, back: string)
    requires AllSpace(front) && AllSpace(back)
    requires w != [] && NoSpace(w)
    ensures Strip(front + w + back) == w
  {
    var s := front + w + back;
    assert s[..|front|] == front;
    SpaceLenIs(s, |front|);
    assert s[|s| - |back|..] == back;
    SpaceLenBackIs(s, |back|);
    assert s[|front|..|s| - |back|] == w;
  }

  /** Stripping never adds a character. */
  lemma StripKeeps(s: string, c: char)
    requires c !in s
    ensures c !in Strip(s)
  {
    var r := Strip(s);
    var i := StripParts(s);
    forall j | 0 <= j < |r|
      ensures r[j] != c
    {
      assert r[j] == s[i + j];
    }
  }

  // ---------------------------------------------------------------- s.count(sub)

  /** `sub` occurs in `s` starting at position `k`. */
  predicate OccursAt(s: string, sub: string, k: nat)
  {
    k + |sub| <= |s| && s[k..k + |sub|] == sub
  }

  /** `s.count(sub)`: occurrences that do not overlap, scanned from the left; the empty string
      is counted `|s| + 1` times. */
  function Count(s: string, sub: string): nat
    decreases |s|
  {
    if |sub| == 0 then |s| + 1
    else if |s| < |sub| then 0
    else if s[..|sub|] == sub then 1 + Count(s[|sub|..], sub)
    else Count(s[1..], sub)
  }

  /** `s.count(sub)` is positive exactly when `sub` occurs in `s` somewhere. */
  lemma {:induction false} CountPositive(s: string, sub: string)
    ensures Count(s, sub) > 0 <==> exists k :: 0 <= k <= |s| && OccursAt(s, sub, k)
    decreases |s|
  {
    if |sub| == 0 {
      assert OccursAt(s, sub, 0);
    } else if |s| < |sub| {
    } else if s[..|sub|] == sub {
      assert OccursAt(s, sub, 0);
    } else {
      CountPositive(s[1..], sub);
      if exists k :: 0 <= k <= |s[1..]| && OccursAt(s[1..], sub, k) {
        var k :| 0 <= k <= |s[1..]| && OccursAt(s[1..], sub, k);
        assert s[1..][k..k + |sub|] == s[k + 1..k + 1 + |sub|];
        assert OccursAt(s, sub, k + 1);
      }
      if exists k :: 0 <= k <= |s| && OccursAt(s, sub, k) {
        var k :| 0 <= k <= |s| && OccursAt(s, sub, k);
        assert k != 0;
        assert s[1..][k - 1..k - 1 + |sub|] == s[k..k + |sub|];
        assert OccursAt(s[1..], sub, k - 1);
      }
    }
  }

  // ---------------------------------------------------------------- s.lower()

  function LowerChar(c: char): char
  {
    if 'A' <= c <= 'Z' then (c as int - 'A' as int + 'a' as int) as char else c
  }

  /** `s.lower()`, restricted to ASCII letters. */
  function Lower(s: string): (r: string)
    ensures |r| == |s|
    ensures forall k :: 0 <= k < |s| ==> r[k] == LowerChar(s[k])
  {
    seq(|s|, k requires 0 <= k < |s| => LowerChar(s[k]))
  }

  // ---------------------------------------------------------------- ordering and sorted()

  /** Python's `<` on `str`: code-point lexicographic order, a proper prefix first. */
  predicate LexLess(a: string, b: string)
    decreases |a|
  {
    if a == [] then b != []
    else if b == [] then false
    else if a[0] != b[0] then a[0] < b[0]
    else LexLess(a[1..], b[1..])
  }

  predicate LexLeq(a: string, b: string)
  {
    a == b || LexLess(a, b)
  }

  lemma {:induction false} LexLessIrreflexive(a: string)
    ensures !LexLess(a, a)
    decreases |a|
  {
    if a != [] {
      LexLessIrreflexive(a[1..]);
    }
  }

  lemma {:induction false} LexLessAsymmetric(a: string, b: string)
    ensures !(LexLess(a, b) && LexLess(b, a))
    decreases |a|
  {
    if a != [] && b != [] && a[0] == b[0] {
      LexLessAsymmetric(a[1..], b[1..]);
    }
  }

  lemma {:induction false} LexLessTransitive(a: string, b: string, c: string)
    requires LexLess(a, b) && LexLess(b, c)
    ensures LexLess(a, c)
    decreases |a|
  {
    if a != [] && b != [] && c != [] && a[0] == b[0] && b[0] == c[0] {
      LexLessTransitive(a[1..], b[1..], c[1..]);
    }
  }

  lemma {:induction false} LexLessTotal(a: string, b: string)
    ensures a == b || LexLess(a, b) || LexLess(b, a)
    decreases |a|
  {
    if a != [] && b != [] && a[0] == b[0] {
      LexLessTotal(a[1..], b[1..]);
      if a[1..] == b[1..] {
        assert a == [a[0]] + a[1..] && b == [b[0]] + b[1..];
      }
    }
  }

  lemma LexLeqTransitive(a: string, b: string, c: string)
    requires LexLeq(a, b) && LexLeq(b, c)
    ensures LexLeq(a, c)
  {
    if LexLess(a, b) && LexLess(b, c) {
      LexLessTransitive(a, b, c);
    }
  }

  /** In `str` order: each element is at most every later one. */
  ghost predicate Sorted(s: seq<string>)
  {
    forall i, j :: 0 <= i < j < |s| ==> LexLeq(s[i], s[j])
  }

  /** Strictly ascending: sorted and without duplicates. */
  ghost predicate StrictlySorted(s: seq<string>)
  {
    forall i, j :: 0 <= i < j < |s| ==> LexLess(s[i], s[j])
  }

  /** A sorted list stays sorted with an element in front that is at most its head. */
  lemma SortedCons(x: string, s: seq<string>)
    requires Sorted(s)
    requires forall y :: y in s ==> LexLeq(x, y)
    ensures Sorted([x] + s)
  {
    var r := [x] + s;
    forall i, j | 0 <= i < j < |r| ensures LexLeq(r[i], r[j]) {
      if i == 0 {
        assert r[j] == s[j - 1] && s[j - 1] in s;
      } else {
        assert r[i] == s[i - 1] && r[j] == s[j - 1];
      }
    }
  }

  /** In a sorted list, the head is at most every element. */
  lemma SortedHead(s: seq<string>)
    requires Sorted(s) && s != []
    ensures forall y :: y in s ==> LexLeq(s[0], y)
  {
    forall y | y in s ensures LexLeq(s[0], y) {
      var j :| 0 <= j < |s| && s[j] == y;
      if j == 0 {
      }
    }
  }

  /** Insert `x` into a sorted list in front of the first element not smaller than it. */
  function Insert(x: string, s: seq<string>): (r: seq<string>)
    requires Sorted(s)
    ensures Sorted(r)
    ensures multiset(r) == multiset(s) + multiset{x}
  {
    if s == [] then
      [x]
    else if LexLeq(x, s[0]) then
      SortedHead(s);
      forall y | y in s ensures LexLeq(x, y) {
        LexLeqTransitive(x, s[0], y);
      }
      SortedCons(x, s);
      assert multiset([x] + s) == multiset{x} + multiset(s);
      [x] + s
    else
      LexLessTotal(x, s[0]);
      assert s == [s[0]] + s[1..];
      assert Sorted(s[1..]) by {
        forall i, j | 0 <= i < j < |s[1..]| ensures LexLeq(s[1..][i], s[1..][j]) {
          assert s[1..][i] == s[i + 1] && s[1..][j] == s[j + 1];
        }
      }
      var tail := Insert(x, s[1..]);
      SortedHead(s);
      forall y | y in tail ensures LexLeq(s[0], y) {
        assert y in multiset(tail);
        if y != x {
          assert y in multiset(s[1..]);
        }
      }
      SortedCons(s[0], tail);
      assert multiset([s[0]] + tail) == multiset{s[0]} + multiset(tail);
      [s[0]] + tail
  }

  /** `sorted(s)` for a list of `str`: the same elements, in ascending order. */
  function Sort(s: seq<string>): (r: seq<string>)
    ensures Sorted(r)
    ensures multiset(r) == multiset(s)
  {
    if s == [] then []
    else
      var front := Sort(s[..|s| - 1]);
      assert s == s[..|s| - 1] + [s[|s| - 1]];
      Insert(s[|s| - 1], front)
  }

  /** Two strings ordered each way round are equal. */
  lemma LexLeqAntisymmetric(a: string, b: string)
    requires LexLeq(a, b) && LexLeq(b, a)
    ensures a == b
  {
    LexLessAsymmetric(a, b);
  }

  /** A sorted list is strictly ascending exactly when it has no duplicates. */
  lemma StrictlySortedDistinct(s: seq<string>)
    requires Sorted(s)
    ensures StrictlySorted(s) <==> Distinct(s)
  {
    if StrictlySorted(s) {
      forall i, j | 0 <= i < j < |s| ensures s[i] != s[j] {
        LexLessIrreflexive(s[i]);
      }
    }
  }

  lemma SortedTail(s: seq<string>)
    requires Sorted(s) && s != []
    ensures Sorted(s[1..])
  {
    forall i, j | 0 <= i < j < |s[1..]| ensures LexLeq(s[1..][i], s[1..][j]) {
      assert s[1..][i] == s[i + 1] && s[1..][j] == s[j + 1];
    }
  }

  /** `sorted()` has one possible result: two ascending lists with the same elements are the
      same list. */
  lemma {:induction false} SortedUnique(a: seq<string>, b: seq<string>)
    requires Sorted(a) && Sorted(b) && multiset(a) == multiset(b)
    ensures a == b
    decreases |a|
  {
    if a != [] {
      assert |b| == |multiset(b)| == |a|;
      assert a[0] in multiset(b) && b[0] in multiset(a);
      SortedHead(a);
      SortedHead(b);
      LexLeqAntisymmetric(a[0], b[0]);
      assert a == [a[0]] + a[1..] && b == [b[0]] + b[1..];
      assert multiset(a[1..]) == multiset(a) - multiset{a[0]} == multiset(b[1..]);
      SortedTail(a);
      SortedTail(b);
      SortedUnique(a[1..], b[1..]);
    }
  }

  /** Sorting a list without duplicates gives a strictly ascending list. */
  lemma SortDistinct(s: seq<string>)
    requires Distinct(s)
    ensures StrictlySorted(Sort(s))
  {
    var r := Sort(s);
    DistinctPermutation(s, r);
    StrictlySortedDistinct(r);
  }
}
