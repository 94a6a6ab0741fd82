/** The JavaScript string operations the plugin relies on, over `seq<char>`.
    Case conversion covers the ASCII letters only; `Trim` removes the
    characters ECMAScript counts as white space or line terminators. */
module Text {

  // ---------------------------------------------------------------------------
  // Case conversion (String.prototype.toLowerCase / toUpperCase, ASCII letters)
  // ---------------------------------------------------------------------------

  function LowerChar(c: char): char {
    if 'A' <= c <= 'Z' then (c as int + 32) as char else c
  }

  function UpperChar(c: char): char {
    if 'a' <= c <= 'z' then (c as int - 32) as char else c
  }

  function Lower(s: string): (r: string)
    ensures |r| == |s|
    ensures forall k :: 0 <= k < |s| ==> r[k] == LowerChar(s[k])
  {
    if s == [] then [] else [LowerChar(s[0])] + Lower(s[1..])
  }

  function Upper(s: string): (r: string)
    ensures |r| == |s|
    ensures forall k :: 0 <= k < |s| ==> r[k] == UpperChar(s[k])
  {
    if s == [] then [] else [UpperChar(s[0])] + Upper(s[1..])
  }

  /** Upper-casing never turns another character into `c` when `c` is not a
      lower-case letter (used for the comma of accept lists). */
  lemma UpperKeepsAbsentChar(s: string, c: char)
    requires !('a' <= c <= 'z') && !('A' <= c <= 'Z')
    requires c !in s
    ensures c !in Upper(s)
  {
    var r := Upper(s);
    forall k | 0 <= k < |r| ensures r[k] != c {
      assert r[k] == UpperChar(s[k]);
    }
  }

  /** Lower-casing forgets any earlier upper-casing. */
  lemma LowerUpper(s: string)
    ensures Lower(Upper(s)) == Lower(s)
  {
    var u := Upper(s);
    forall k | 0 <= k < |s| ensures Lower(u)[k] == Lower(s)[k] {
      assert u[k] == UpperChar(s[k]);
    }
  }

  // ---------------------------------------------------------------------------
  // Prefix, suffix and substring tests
  // ---------------------------------------------------------------------------

  predicate StartsWith(s: string, p: string) {
    |p| <= |s| && s[..|p|] == p
  }

  predicate EndsWith(s: string, p: string) {
    |p| <= |s| && s[|s| - |p|..] == p
  }

  lemma EndsWithChar(s: string, c: char)
    requires EndsWith(s, [c])
    ensures |s| >= 1 && s[|s| - 1] == c
  {
    assert s[|s| - 1..][0] == s[|s| - 1];
  }

  /** A two-character suffix test is a test of the last two characters. */
  lemma EndsWithPair(s: string, a: char, b: char)
    requires |s| >= 2
    ensures EndsWith(s, [a, b]) <==> s[|s| - 2] == a && s[|s| - 1] == b
  {
    assert s[|s| - 2..] == [s[|s| - 2], s[|s| - 1]];
  }

  /** `sub` occurs in `s` starting at position `i`. */
  predicate OccursAt(s: string, sub: string, i: int) {
    0 <= i && i + |sub| <= |s| && s[i..i + |sub|] == sub
  }

  lemma OccursAtShift(s: string, sub: string, i: int)
    requires s != [] && i >= 0
    ensures OccursAt(s[1..], sub, i) <==> OccursAt(s, sub, i + 1)
  {
    if 0 <= i && i + |sub| <= |s| - 1 {
      assert s[1..][i..i + |sub|] == s[i + 1..i + 1 + |sub|];
    }
  }

  /** String.prototype.includes: `sub` occurs somewhere in `s`. */
  function Contains(s: string, sub: string): (b: bool)
    ensures b <==> exists i :: OccursAt(s, sub, i)
    decreases |s|
  {
    if StartsWith(s, sub) then
      assert OccursAt(s, sub, 0) by { assert s[0..|sub|] == s[..|sub|]; }
      true
    else if s == [] then
      false
    else
      var b := Contains(s[1..], sub);
      assert b ==> exists i :: OccursAt(s, sub, i) by {
        if b {
          var i :| OccursAt(s[1..], sub, i);
          OccursAtShift(s, sub, i);
        }
      }
      assert (exists i :: OccursAt(s, sub, i)) ==> b by {
        if exists i :: OccursAt(s, sub, i) {
          var i :| OccursAt(s, sub, i);
          assert i != 0 by { assert s[..|sub|] == s[0..|sub|]; }
          OccursAtShift(s, sub, i - 1);
        }
      }
      b
  }

  /** A concatenation starts with its first part and contains its second. */
  lemma ConcatParts(p: string, x: string)
    ensures StartsWith(p + x, p)
    ensures Contains(p + x, x)
  {
    assert (p + x)[..|p|] == p;
    assert OccursAt(p + x, x, |p|) by { assert (p + x)[|p|..|p| + |x|] == x; }
  }

  /** A string that lacks the first character of `sub` cannot contain `sub`. */
  lemma FirstCharMissing(s: string, sub: string)
    requires sub != [] && sub[0] !in s
    ensures !Contains(s, sub)
  {
    forall i | 0 <= i && i + |sub| <= |s| ensures !OccursAt(s, sub, i) {
      assert s[i] in s;
      assert s[i..i + |sub|][0] == s[i];
    }
  }

  // ---------------------------------------------------------------------------
  // String.prototype.split(c) for a one-character separator, and Array.join
  // ---------------------------------------------------------------------------

  /** The pieces of `s` between occurrences of `sep`; like JavaScript, the
      empty string splits into one empty piece. */
  function Split(s: string, sep: char): (parts: seq<string>)
    ensures |parts| >= 1
    ensures forall k :: 0 <= k < |parts| ==> sep !in parts[k]
    ensures sep !in s ==> parts == [s]
    ensures sep in s ==> |parts| >= 2
    decreases |s|
  {
    if s == [] then [""]
    else
      var rest := Split(s[1..], sep);
      if s[0] == sep then [""] + rest
      else
        assert sep !in [s[0]] + rest[0];
        assert s == [s[0]] + s[1..];
        [[s[0]] + rest[0]] + rest[1..]
  }

  function Join(parts: seq<string>, sep: string): string {
    if |parts| == 0 then ""
    else if |parts| == 1 then parts[0]
    else parts[0] + sep + Join(parts[1..], sep)
  }

  lemma JoinCons(head: string, tail: seq<string>, sep: string)
    requires |tail| >= 1
    ensures Join([head] + tail, sep) == head + sep + Join(tail, sep)
  {
    assert ([head] + tail)[1..] == tail;
  }

  /** Joining the pieces of a split with the separator gives back the string. */
  lemma {:induction false} JoinSplit(s: string, c: char)
    ensures Join(Split(s, c), [c]) == s
    decreases |s|
  {
    if s != [] {
      var rest := Split(s[1..], c);
      JoinSplit(s[1..], c);
      if s[0] == c {
        JoinCons("", rest, [c]);
        assert s == [c] + s[1..];
      } else {
        var parts := [[s[0]] + rest[0]] + rest[1..];
        assert Split(s, c) == parts;
        if |rest| == 1 {
          assert Join(parts, [c]) == [s[0]] + rest[0];
          assert s == [s[0]] + s[1..];
        } else {
          var tail := Join(rest[1..], [c]);
          JoinCons([s[0]] + rest[0], rest[1..], [c]);
          assert rest == [rest[0]] + rest[1..];
          JoinCons(rest[0], rest[1..], [c]);
          calc {
            Join(parts, [c]);
            ([s[0]] + rest[0]) + [c] + tail;
            [s[0]] + (rest[0] + [c] + tail);
            [s[0]] + Join(rest, [c]);
            [s[0]] + s[1..];
          }
          assert s == [s[0]] + s[1..];
        }
      }
    }
  }

  lemma {:induction false} SplitAfterFirst(x: string, c: char, y: string)
    requires c !in x
    ensures Split(x + [c] + y, c) == [x] + Split(y, c)
    decreases |x|
  {
    var s := x + [c] + y;
    if x == [] {
      assert s[1..] == y;
    } else {
      assert s[1..] == x[1..] + [c] + y;
      SplitAfterFirst(x[1..], c, y);
      assert [x[0]] + x[1..] == x;
    }
  }

  /** Splitting a join of separator-free pieces gives back the pieces. */
  lemma {:induction false} SplitJoin(parts: seq<string>, c: char)
    requires |parts| >= 1
    requires forall k :: 0 <= k < |parts| ==> c !in parts[k]
    ensures Split(Join(parts, [c]), c) == parts
    decreases |parts|
  {
    if |parts| > 1 {
      SplitJoin(parts[1..], c);
      SplitAfterFirst(parts[0], c, Join(parts[1..], [c]));
      assert parts == [parts[0]] + parts[1..];
    }
  }

  /** The last piece of a split: the whole string when the separator does not
      occur, otherwise exactly the text after one of its occurrences (the last
      one, since the piece itself holds no separator). */
  lemma {:induction false} LastPiece(s: string, c: char)
    ensures c !in s ==> Last(Split(s, c)) == s
    ensures c in s ==> exists k :: 0 <= k < |s| && s[k] == c && Last(Split(s, c)) == s[k + 1..]
    decreases |s|
  {
    if s != [] && c in s {
      var rest := Split(s[1..], c);
      LastPiece(s[1..], c);
      if s[0] == c {
        assert Split(s, c) == [""] + rest;
        assert Last(Split(s, c)) == Last(rest);
        if c in s[1..] {
          var k :| 0 <= k < |s[1..]| && s[1..][k] == c && Last(rest) == s[1..][k + 1..];
          assert s[k + 1] == c && s[k + 2..] == s[1..][k + 1..];
        } else {
          assert Last(rest) == s[1..] == s[0 + 1..];
        }
      } else {
        assert c in s[1..];
        var parts := [[s[0]] + rest[0]] + rest[1..];
        assert Split(s, c) == parts;
        assert Last(parts) == Last(rest);
        var k :| 0 <= k < |s[1..]| && s[1..][k] == c && Last(rest) == s[1..][k + 1..];
        assert s[k + 1] == c && s[k + 2..] == s[1..][k + 1..];
      }
    }
  }

  /** A string ending in the separator splits into pieces the last of which is empty. */
  lemma {:induction false} EmptyLastPiece(s: string, c: char)
    requires |s| >= 1 && s[|s| - 1] == c
    ensures Last(Split(s, c)) == ""
    ensures Split(s, c)[|Split(s, c)| - 1] == ""
    decreases |s|
  {
    var rest := Split(s[1..], c);
    if |s| == 1 {
      assert s[1..] == [];
    } else {
      EmptyLastPiece(s[1..], c);
      assert s[1..][|s| - 2] == c;
      if s[0] != c {
        assert Split(s, c) == [[s[0]] + rest[0]] + rest[1..];
      }
    }
  }

  /** Some piece of a string ending in the separator is empty. */
  lemma EmptyPieceAtEnd(s: string, c: char)
    requires |s| >= 1 && s[|s| - 1] == c
    ensures exists n :: 0 <= n < |Split(s, c)| && Split(s, c)[n] == ""
  {
    EmptyLastPiece(s, c);
  }

  /** Array.prototype.pop's value on a non-empty array. */
  function Last<X>(xs: seq<X>): X
    requires |xs| >= 1
  {
    xs[|xs| - 1]
  }

  // ---------------------------------------------------------------------------
  // String.prototype.trim
  // ---------------------------------------------------------------------------

  /** ECMAScript WhiteSpace and LineTerminator code points. */
  const SpaceCodes: set<int> := {
    0x09, 0x0A, 0x0B, 0x0C, 0x0D, 0x20, 0xA0, 0x1680,
    0x2000, 0x2001, 0x2002, 0x2003, 0x2004, 0x2005, 0x2006, 0x2007, 0x2008, 0x2009, 0x200A,
    0x2028, 0x2029, 0x202F, 0x205F, 0x3000, 0xFEFF
  }

  predicate IsSpace(c: char) {
    c as int in SpaceCodes
  }

  function TrimStart(s: string): (r: string)
    ensures |r| <= |s| && r == s[|s| - |r|..]
    ensures r != [] ==> !IsSpace(r[0])
    ensures forall k :: 0 <= k < |s| - |r| ==> IsSpace(s[k])
  {
    if s != [] && IsSpace(s[0]) then TrimStart(s[1..]) else s
  }

  function TrimEnd(s: string): (r: string)
    ensures |r| <= |s| && r == s[..|r|]
    ensures r != [] ==> !IsSpace(r[|r| - 1])
    ensures forall k :: |r| <= k < |s| ==> IsSpace(s[k])
  {
    if s != [] && IsSpace(s[|s| - 1]) then TrimEnd(s[..|s| - 1]) else s
  }

  /** `r` is the piece of `s` at position `i`, with only white space around it. */
  ghost predicate Flanked(s: string, r: string, i: int) {
    && 0 <= i <= |s| - |r| && r == s[i..i + |r|]
    && (forall k :: 0 <= k < i ==> IsSpace(s[k]))
    && (forall k :: i + |r| <= k < |s| ==> IsSpace(s[k]))
  }

  /** `s` without its leading and trailing white space: a contiguous piece of
      `s`, flanked only by white space, that neither starts nor ends with it. */
  function Trim(s: string): (r: string)
    ensures r != [] ==> !IsSpace(r[0]) && !IsSpace(r[|r| - 1])
    ensures exists i :: Flanked(s, r, i)
  {
    TrimFlanked(s);
    TrimEnd(TrimStart(s))
  }

  lemma TrimEmpty()
    ensures Trim("") == ""
  {
    assert TrimStart("") == "" && TrimEnd("") == "";
  }

  lemma TrimFlanked(s: string)
    ensures Flanked(s, TrimEnd(TrimStart(s)), |s| - |TrimStart(s)|)
  {
    FlankedByParts(s, TrimStart(s), TrimEnd(TrimStart(s)));
  }

  lemma FlankedByParts(s: string, t: string, r: string)
    requires |t| <= |s| && t == s[|s| - |t|..]
    requires forall k :: 0 <= k < |s| - |t| ==> IsSpace(s[k])
    requires |r| <= |t| && r == t[..|r|]
    requires forall k :: |r| <= k < |t| ==> IsSpace(t[k])
    ensures Flanked(s, r, |s| - |t|)
  {
    var i := |s| - |t|;
    forall k | i + |r| <= k < |s| ensures IsSpace(s[k]) {
      assert s[k] == t[k - i];
    }
  }

  // ---------------------------------------------------------------------------
  // String.prototype.replace(pattern, replacement) with a string pattern
  // ---------------------------------------------------------------------------

  /** Replaces the first occurrence of `pat` in `s` by `rep`. */
  function ReplaceFirst(s: string, pat: string, rep: string): string
    decreases |s|
  {
    if StartsWith(s, pat) then rep + s[|pat|..]
    else if s == [] then []
    else [s[0]] + ReplaceFirst(s[1..], pat, rep)
  }

  /** `i` is the position of the leftmost occurrence of `pat` in `s`. */
  ghost predicate FirstOccurrence(s: string, pat: string, i: int) {
    OccursAt(s, pat, i) && forall j :: 0 <= j < i ==> !OccursAt(s, pat, j)
  }

  lemma FirstOccurrenceShift(s: string, pat: string, i: int)
    requires s != [] && !OccursAt(s, pat, 0) && FirstOccurrence(s[1..], pat, i)
    ensures FirstOccurrence(s, pat, i + 1)
  {
    OccursAtShift(s, pat, i);
    forall j | 0 <= j < i + 1 ensures !OccursAt(s, pat, j) {
      if j > 0 {
        OccursAtShift(s, pat, j - 1);
      }
    }
  }

  lemma AbsentShift(s: string, pat: string)
    requires s != [] && !OccursAt(s, pat, 0) && !Contains(s[1..], pat)
    ensures !Contains(s, pat)
  {
    forall i | OccursAt(s, pat, i) ensures false {
      if i > 0 { OccursAtShift(s, pat, i - 1); }
    }
  }

  /** Where `pat` occurs, the first occurrence is replaced; elsewhere `s` is unchanged. */
  ghost predicate ReplacesFirst(s: string, pat: string, rep: string, r: string) {
    && (!Contains(s, pat) ==> r == s)
    && (Contains(s, pat) ==> exists i :: FirstOccurrence(s, pat, i) && r == s[..i] + rep + s[i + |pat|..])
  }

  lemma {:induction false} ReplaceFirstSpec(s: string, pat: string, rep: string)
    ensures ReplacesFirst(s, pat, rep, ReplaceFirst(s, pat, rep))
    decreases |s|
  {
    if StartsWith(s, pat) {
      ReplaceAtHead(s, pat, rep);
    } else if s != [] {
      ReplaceFirstSpec(s[1..], pat, rep);
      ReplaceInTail(s, pat, rep, ReplaceFirst(s[1..], pat, rep));
    }
  }

  lemma ReplaceAtHead(s: string, pat: string, rep: string)
    requires StartsWith(s, pat)
    ensures ReplacesFirst(s, pat, rep, ReplaceFirst(s, pat, rep))
  {
    assert s[0..|pat|] == s[..|pat|];
    assert FirstOccurrence(s, pat, 0);
    assert ReplaceFirst(s, pat, rep) == s[..0] + rep + s[0 + |pat|..];
  }

  lemma ReplaceInTail(s: string, pat: string, rep: string, tail: string)
    requires s != [] && !StartsWith(s, pat)
    requires tail == ReplaceFirst(s[1..], pat, rep)
    requires ReplacesFirst(s[1..], pat, rep, tail)
    ensures ReplacesFirst(s, pat, rep, ReplaceFirst(s, pat, rep))
  {
    assert !OccursAt(s, pat, 0) by {
      if |pat| <= |s| { assert s[0..|pat|] == s[..|pat|]; }
    }
    assert ReplaceFirst(s, pat, rep) == [s[0]] + tail;
    if Contains(s[1..], pat) {
      var i :| FirstOccurrence(s[1..], pat, i) && tail == s[1..][..i] + rep + s[1..][i + |pat|..];
      FirstOccurrenceShift(s, pat, i);
      ReplaceFoundInTail(s, pat, rep, i, tail);
    } else {
      assert [s[0]] + s[1..] == s;
      AbsentShift(s, pat);
    }
  }

  lemma ReplaceFoundInTail(s: string, pat: string, rep: string, i: int, tail: string)
    requires s != [] && 0 <= i && i + |pat| <= |s| - 1
    requires tail == s[1..][..i] + rep + s[1..][i + |pat|..]
    ensures [s[0]] + tail == s[..i + 1] + rep + s[i + 1 + |pat|..]
  {
    calc {
      [s[0]] + tail;
      [s[0]] + (s[1..][..i] + rep + s[1..][i + |pat|..]);
      ([s[0]] + s[1..][..i]) + rep + s[1..][i + |pat|..];
      { assert [s[0]] + s[1..][..i] == s[..i + 1]; }
      s[..i + 1] + rep + s[1..][i + |pat|..];
      { assert s[1..][i + |pat|..] == s[i + 1 + |pat|..]; }
      s[..i + 1] + rep + s[i + 1 + |pat|..];
    }
  }

  /** A replacement introduces no character that neither `s` nor `rep` has. */
  lemma {:induction false} ReplaceFirstKeepsAbsentChar(s: string, pat: string, rep: string, c: char)
    requires c !in s && c !in rep
    ensures c !in ReplaceFirst(s, pat, rep)
    decreases |s|
  {
    if !StartsWith(s, pat) && s != [] {
      ReplaceFirstKeepsAbsentChar(s[1..], pat, rep, c);
    }
  }
}
