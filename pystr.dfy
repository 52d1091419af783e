/** The Python `str` operations the hiscores parser uses: `strip()`,
    `split(sep)`, `sep.join(parts)`, `replace(old, new)` for one character,
    the `in` substring test and `lower()` (ASCII letters only). */
module PyStr {

  type String = seq<char>

  /** Python's `str.isspace()` for one character: the characters whose
      bidirectional class is WS, B or S, or whose category is Zs. */
  predicate IsSpace(c: char)
  {
    var n := c as int;
    n == 0x20 || (0x09 <= n <= 0x0d) || (0x1c <= n <= 0x1f) || n == 0x85 || n == 0xa0
    || n == 0x1680 || (0x2000 <= n <= 0x200a) || n == 0x2028 || n == 0x2029
    || n == 0x202f || n == 0x205f || n == 0x3000
  }

  predicate AllSpace(s: String)
  {
    forall k :: 0 <= k < |s| ==> IsSpace(s[k])
  }

  /** `s.lstrip()`: the longest suffix of `s` that does not start with whitespace. */
  function TrimStart(s: String): (r: String)
    ensures |r| <= |s| && r == s[|s| - |r|..]
    ensures AllSpace(s[..|s| - |r|])
    ensures r == [] || !IsSpace(r[0])
  {
    if |s| > 0 && IsSpace(s[0]) then
      var r := TrimStart(s[1..]);
      TrimStartStep(s, r);
      r
    else s
  }

  lemma TrimStartStep(s: String, r: String)
    requires |s| > 0 && IsSpace(s[0])
    requires |r| <= |s| - 1 && r == s[1..][|s| - 1 - |r|..] && AllSpace(s[1..][..|s| - 1 - |r|])
    ensures r == s[|s| - |r|..] && AllSpace(s[..|s| - |r|])
  {
    assert s[..|s| - |r|] == [s[0]] + s[1..][..|s| - 1 - |r|];
  }

  /** `s.rstrip()`: the longest prefix of `s` that does not end with whitespace. */
  function TrimEnd(s: String): (r: String)
    ensures |r| <= |s| && r == s[..|r|]
    ensures AllSpace(s[|r|..])
    ensures r == [] || !IsSpace(r[|r| - 1])
  {
    if |s| > 0 && IsSpace(s[|s| - 1]) then
      var r := TrimEnd(s[..|s| - 1]);
      TrimEndStep(s, r);
      r
    else s
  }

  lemma TrimEndStep(s: String, r: String)
    requires |s| > 0 && IsSpace(s[|s| - 1])
    requires |r| <= |s| - 1 && r == s[..|s| - 1][..|r|] && AllSpace(s[..|s| - 1][|r|..])
    ensures r == s[..|r|] && AllSpace(s[|r|..])
  {
    assert s[|r|..] == s[..|s| - 1][|r|..] + [s[|s| - 1]];
  }

  /** `r` is `s[i..j]` and everything outside `i..j` is whitespace. */
  ghost predicate TrimmedTo(s: String, r: String, i: int, j: int)
  {
    0 <= i <= j <= |s| && r == s[i..j] && AllSpace(s[..i]) && AllSpace(s[j..])
  }

  /** `s.strip()`: `s` with its whitespace ends cut off. The result is one
      contiguous piece of `s`, everything cut off is whitespace, and the
      result neither starts nor ends with whitespace. */
  function Strip(s: String): (r: String)
    ensures exists i, j :: TrimmedTo(s, r, i, j)
    ensures r == [] || (!IsSpace(r[0]) && !IsSpace(r[|r| - 1]))
  {
    var t := TrimStart(s);
    var r := TrimEnd(t);
    TrimBoth(s, t, r);
    r
  }

  /** Cutting whitespace off the front and then off the back leaves a middle piece. */
  lemma TrimBoth(s: String, t: String, r: String)
    requires |t| <= |s| && t == s[|s| - |t|..] && AllSpace(s[..|s| - |t|])
    requires |r| <= |t| && r == t[..|r|] && AllSpace(t[|r|..])
    ensures TrimmedTo(s, r, |s| - |t|, |s| - |t| + |r|)
  {
    var i := |s| - |t|;
    assert r == s[i..i + |r|];
    assert s[i + |r|..] == t[|r|..];
  }

  /** Text with no whitespace at either end is left as it is. */
  lemma StripKeeps(s: String)
    requires |s| >= 1 && !IsSpace(s[0]) && !IsSpace(s[|s| - 1])
    ensures Strip(s) == s
  {
    assert TrimStart(s) == s;
    assert TrimEnd(s) == s;
  }

  /** Text that is only whitespace strips to nothing. */
  lemma StripBlank(s: String)
    requires AllSpace(s)
    ensures Strip(s) == []
  {
    var r := Strip(s);
    var i, j :| TrimmedTo(s, r, i, j);
  }

  /** `sep.join(parts)`. */
  function Join(parts: seq<String>, sep: char): String
  {
    if |parts| == 0 then []
    else if |parts| == 1 then parts[0]
    else parts[0] + [sep] + Join(parts[1..], sep)
  }

  lemma JoinCons(head: String, parts: seq<String>, sep: char)
    requires |parts| >= 1
    ensures Join([head] + parts, sep) == head + [sep] + Join(parts, sep)
  {
    assert ([head] + parts)[1..] == parts;
  }

  /** Two pieces joined: the first, the separator, the second. */
  lemma JoinPair(parts: seq<String>, sep: char)
    requires |parts| == 2
    ensures Join(parts, sep) == parts[0] + [sep] + parts[1]
  {
    JoinCons(parts[0], parts[1..], sep);
    assert parts[1..] == [parts[1]];
  }

  /** `s.split(sep)` for a one-character separator: the pieces between the
      occurrences of `sep`. There is always one more piece than there are
      separators, so the empty string gives one empty piece; no piece holds
      the separator, and joining the pieces with it gives `s` back. */
  function Split(s: String, sep: char): (parts: seq<String>)
    ensures |parts| == multiset(s)[sep] + 1
    ensures forall k :: 0 <= k < |parts| ==> sep !in parts[k]
    ensures Join(parts, sep) == s
  {
    if |s| == 0 then [[]]
    else
      var rest := Split(s[1..], sep);
      SplitStep(s, sep, rest);
      if s[0] == sep then [[]] + rest
      else [[s[0]] + rest[0]] + rest[1..]
  }

  /** One step of Split: the pieces of `s` from those of `s[1..]`. */
  lemma SplitStep(s: String, sep: char, rest: seq<String>)
    requires |s| >= 1 && |rest| >= 1
    requires |rest| == multiset(s[1..])[sep] + 1
    requires forall k :: 0 <= k < |rest| ==> sep !in rest[k]
    requires Join(rest, sep) == s[1..]
    ensures var parts := if s[0] == sep then [[]] + rest else [[s[0]] + rest[0]] + rest[1..];
      && |parts| == multiset(s)[sep] + 1
      && (forall k :: 0 <= k < |parts| ==> sep !in parts[k])
      && Join(parts, sep) == s
  {
    SplitStepCount(s, sep);
    if s[0] == sep {
      JoinCons([], rest, sep);
    } else {
      SplitStepPiece(s, sep, rest);
    }
  }

  /** The separators of `s` are those of `s[1..]` and possibly `s[0]`. */
  lemma SplitStepCount(s: String, sep: char)
    requires |s| >= 1
    ensures multiset(s)[sep] == multiset(s[1..])[sep] + (if s[0] == sep then 1 else 0)
  {
    assert s == [s[0]] + s[1..];
    assert multiset(s) == multiset{s[0]} + multiset(s[1..]);
  }

  /** The step of Split on a character other than the separator: it extends the first piece. */
  lemma SplitStepPiece(s: String, sep: char, rest: seq<String>)
    requires |s| >= 1 && |rest| >= 1 && s[0] != sep
    requires forall k :: 0 <= k < |rest| ==> sep !in rest[k]
    requires Join(rest, sep) == s[1..]
    ensures var parts := [[s[0]] + rest[0]] + rest[1..];
      && (forall k :: 0 <= k < |parts| ==> sep !in parts[k])
      && Join(parts, sep) == s
  {
    var parts := [[s[0]] + rest[0]] + rest[1..];
    assert forall k :: 1 <= k < |parts| ==> parts[k] == rest[k];
    if |rest| > 1 {
      JoinCons([s[0]] + rest[0], rest[1..], sep);
      JoinCons(rest[0], rest[1..], sep);
      assert rest == [rest[0]] + rest[1..];
    }
  }

  /** Splitting is the inverse of joining pieces that do not contain the separator. */
  lemma {:induction false} SplitJoin(parts: seq<String>, sep: char)
    requires |parts| >= 1
    requires forall k :: 0 <= k < |parts| ==> sep !in parts[k]
    ensures Split(Join(parts, sep), sep) == parts
  {
    if |parts| == 1 {
      SplitFree(parts[0], sep);
    } else {
      SplitJoin(parts[1..], sep);
      SplitAfterPiece(parts[0], Join(parts[1..], sep), sep);
      assert parts == [parts[0]] + parts[1..];
    }
  }

  /** A string without the separator splits into itself alone. */
  lemma {:induction false} SplitFree(s: String, sep: char)
    requires sep !in s
    ensures Split(s, sep) == [s]
  {
    if |s| > 0 {
      SplitFree(s[1..], sep);
      assert s == [s[0]] + s[1..];
    }
  }

  /** A separator-free piece followed by the separator splits off as one piece. */
  lemma {:induction false} SplitAfterPiece(piece: String, tail: String, sep: char)
    requires sep !in piece
    ensures Split(piece + [sep] + tail, sep) == [piece] + Split(tail, sep)
  {
    var s := piece + [sep] + tail;
    if |piece| == 0 {
      assert s[1..] == tail;
    } else {
      var c, more := piece[0], piece[1..];
      assert piece == [c] + more;
      assert sep !in more;
      assert s == [c] + (more + [sep] + tail);
      SplitAfterPiece(more, tail, sep);
      SplitCons(c, more + [sep] + tail, sep);
    }
  }

  /** Split on a first character other than the separator joins it to the first piece. */
  lemma SplitCons(c: char, rest: String, sep: char)
    requires c != sep
    ensures Split([c] + rest, sep) == [[c] + Split(rest, sep)[0]] + Split(rest, sep)[1..]
  {
    assert ([c] + rest)[1..] == rest;
  }

  /** A character other than the separator that no piece holds is not in the join. */
  lemma {:induction false} JoinAvoids(parts: seq<String>, sep: char, c: char)
    requires c != sep
    requires forall k :: 0 <= k < |parts| ==> c !in parts[k]
    ensures c !in Join(parts, sep)
  {
    if |parts| > 1 {
      JoinAvoids(parts[1..], sep, c);
    }
  }

  /** The first character of a join is that of its first piece. */
  lemma {:induction false} JoinFirst(parts: seq<String>, sep: char)
    requires |parts| >= 1 && |parts[0]| >= 1
    ensures |Join(parts, sep)| >= 1 && Join(parts, sep)[0] == parts[0][0]
  {
  }

  /** The last character of a join is that of its last piece. */
  lemma {:induction false} JoinLast(parts: seq<String>, sep: char)
    requires |parts| >= 1 && |parts[|parts| - 1]| >= 1
    ensures var j := Join(parts, sep); |j| >= 1 && j[|j| - 1] == parts[|parts| - 1][|parts[|parts| - 1]| - 1]
  {
    if |parts| > 1 {
      JoinLast(parts[1..], sep);
    }
  }

  /** `sub` occurs in `s` starting at index `i`. */
  ghost predicate OccursAt(s: String, sub: String, i: int)
  {
    0 <= i <= |s| - |sub| && s[i..i + |sub|] == sub
  }

  lemma OccursShift(s: String, sub: String)
    requires |s| >= 1
    ensures forall i :: 0 <= i ==> (OccursAt(s[1..], sub, i) <==> OccursAt(s, sub, i + 1))
  {
    forall i | 0 <= i ensures OccursAt(s[1..], sub, i) <==> OccursAt(s, sub, i + 1) {
      if 0 <= i <= |s| - 1 - |sub| {
        assert s[1..][i..i + |sub|] == s[i + 1..i + 1 + |sub|];
      }
    }
  }

  /** Python's `sub in s`: whether `sub` occurs somewhere in `s`. */
  function Contains(s: String, sub: String): (r: bool)
    ensures r <==> exists i :: OccursAt(s, sub, i)
    decreases |s|
  {
    if |sub| > |s| then
      assert forall i :: !OccursAt(s, sub, i);
      false
    else if s[..|sub|] == sub then
      assert OccursAt(s, sub, 0);
      true
    else
      OccursShift(s, sub);
      assert !OccursAt(s, sub, 0);
      assert (exists i :: OccursAt(s, sub, i)) ==> (exists i :: OccursAt(s[1..], sub, i)) by {
        if exists i :: OccursAt(s, sub, i) {
          var i :| OccursAt(s, sub, i);
          assert OccursAt(s[1..], sub, i - 1);
        }
      }
      Contains(s[1..], sub)
  }

  /** Lower-case mapping of one character, for the ASCII letters. */
  function LowerChar(c: char): char
  {
    if 'A' <= c <= 'Z' then (c as int + 32) as char else c
  }

  /** `s.lower()`, restricted to ASCII letters: same length, each character mapped. */
  function LowerAscii(s: String): (r: String)
    ensures |r| == |s|
    ensures forall k :: 0 <= k < |s| ==> r[k] == LowerChar(s[k])
  {
    if |s| == 0 then [] else [LowerChar(s[0])] + LowerAscii(s[1..])
  }

  /** `s.replace(from, to)` for one-character `from` and `to`: every `from`
      becomes `to`, every other character is kept, and no `from` is left. */
  function ReplaceChar(s: String, from: char, to: char): (r: String)
    ensures |r| == |s|
    ensures forall k :: 0 <= k < |s| ==> r[k] == (if s[k] == from then to else s[k])
    ensures from != to ==> from !in r
  {
    if |s| == 0 then [] else [if s[0] == from then to else s[0]] + ReplaceChar(s[1..], from, to)
  }

  /** A string that agrees with the replacement at every index is the replacement. */
  lemma ReplaceIs(s: String, from: char, to: char, t: String)
    requires |t| == |s|
    requires forall k :: 0 <= k < |s| ==> t[k] == (if s[k] == from then to else s[k])
    ensures ReplaceChar(s, from, to) == t
  {
    var r := ReplaceChar(s, from, to);
    assert forall k :: 0 <= k < |s| ==> r[k] == t[k];
  }

  /** Replacing the one occurrence of a character. */
  lemma ReplaceOne(a: String, b: String, from: char, to: char)
    requires from !in a && from !in b
    ensures ReplaceChar(a + [from] + b, from, to) == a + [to] + b
  {
    var s, t := a + [from] + b, a + [to] + b;
    forall k | 0 <= k < |s| ensures t[k] == (if s[k] == from then to else s[k]) {
      if k < |a| {
        assert s[k] == a[k] && t[k] == a[k];
      } else if k == |a| {
        assert s[k] == from && t[k] == to;
      } else {
        assert s[k] == b[k - |a| - 1] && t[k] == b[k - |a| - 1];
      }
    }
    ReplaceIs(s, from, to, t);
  }

  /** Replacing a character that does not occur changes nothing. */
  lemma ReplaceAbsent(s: String, from: char, to: char)
    requires from !in s
    ensures ReplaceChar(s, from, to) == s
  {
  }

}
