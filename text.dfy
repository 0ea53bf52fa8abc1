/** Character classes and the JavaScript string built-ins the parser relies on:
    `\s` / `trim`, `split` on a single character and `join`. */
module Text {

  /** The ECMAScript WhiteSpace and LineTerminator code points: the set that both the
      regular-expression class `\s` and `String.prototype.trim` use. */
  predicate IsSpace(c: char) {
    || c == ' ' || c == '\t' || c == '\n' || c == '\r' || c == '\U{000B}' || c == '\U{000C}'
    || c == '\U{00A0}' || c == '\U{1680}' || ('\U{2000}' <= c <= '\U{200A}')
    || c == '\U{2028}' || c == '\U{2029}' || c == '\U{202F}' || c == '\U{205F}'
    || c == '\U{3000}' || c == '\U{FEFF}'
  }

  /** The characters the regular-expression atom `.` refuses (no `s` flag). */
  predicate IsLineTerminator(c: char) {
    c == '\n' || c == '\r' || c == '\U{2028}' || c == '\U{2029}'
  }

  /** `\d`: ASCII digits only. */
  predicate IsDigit(c: char) {
    '0' <= c <= '9'
  }

  /** `[A-Z]` under the `i` flag without `u`: ASCII letters of either case. */
  predicate IsLetter(c: char) {
    ('A' <= c <= 'Z') || ('a' <= c <= 'z')
  }

  predicate AllSpace(s: string) {
    forall k :: 0 <= k < |s| ==> IsSpace(s[k])
  }

  /** A string with no white space at either end: what `trim` produces. */
  predicate IsTrimmed(s: string) {
    s == [] || (!IsSpace(s[0]) && !IsSpace(s[|s| - 1]))
  }

  /** The end of the longest run of characters satisfying `p` that starts at `i`:
      how a greedy quantifier over a character class first consumes its input. */
  function Span(s: string, i: nat, p: char -> bool): (j: nat)
    requires i <= |s|
    ensures i <= j <= |s|
    ensures forall k :: i <= k < j ==> p(s[k])
    ensures j == |s| || !p(s[j])
    decreases |s| - i
  {
    if i < |s| && p(s[i]) then Span(s, i + 1, p) else i
  }

  function TrimStart(s: string): (r: string)
    ensures |r| <= |s| && r == s[|s| - |r|..]
    ensures AllSpace(s[..|s| - |r|])
    ensures r == [] || !IsSpace(r[0])
  {
    s[Span(s, 0, IsSpace)..]
  }

  function TrimEnd(s: string): (r: string)
    ensures |r| <= |s| && r == s[..|r|]
    ensures AllSpace(s[|r|..])
    ensures r == [] || !IsSpace(r[|r| - 1])
    decreases |s|
  {
    if s != [] && IsSpace(s[|s| - 1]) then
      var r := TrimEnd(s[..|s| - 1]);
      assert s[|r|..] == s[..|s| - 1][|r|..] + [s[|s| - 1]];
      r
    else s
  }

  /** `String.prototype.trim`. */
  function Trim(s: string): (r: string)
    ensures |r| <= |s|
    ensures IsTrimmed(r)
    ensures r == [] <==> AllSpace(s)
  {
    var t := TrimStart(s);
    var r := TrimEnd(t);
    assert t == [] ==> r == [];
    assert r == [] ==> AllSpace(s) by {
      if r == [] {
        assert s == s[..|s| - |t|] + t;
      }
    }
    r
  }

  /** `trim` removes only white space: the input is the result with white space around it. */
  lemma TrimDecompose(s: string) returns (lead: string, trail: string)
    ensures s == lead + Trim(s) + trail
    ensures AllSpace(lead) && AllSpace(trail)
  {
    var t := TrimStart(s);
    lead := s[..|s| - |t|];
    trail := t[|Trim(s)|..];
    assert t == Trim(s) + trail;
    assert s == lead + t;
  }

  /** Conversely, a trimmed string with white space around it trims back to itself. */
  lemma TrimUnique(lead: string, m: string, trail: string)
    requires AllSpace(lead) && AllSpace(trail) && IsTrimmed(m)
    ensures Trim(lead + m + trail) == m
  {
    var s := lead + m + trail;
    if m == [] {
      assert AllSpace(s);
    } else {
      var i := Span(s, 0, IsSpace);
      assert s[|lead|] == m[0];
      assert i == |lead|;
      var t := TrimStart(s);
      assert t == m + trail;
      TrimEndSpaces(m, trail);
    }
  }

  lemma {:induction false} TrimEndSpaces(m: string, trail: string)
    requires AllSpace(trail) && (m == [] || !IsSpace(m[|m| - 1]))
    ensures TrimEnd(m + trail) == m
    decreases |trail|
  {
    if trail == [] {
      assert m + trail == m;
    } else {
      var s := m + trail;
      assert s[..|s| - 1] == m + trail[..|trail| - 1];
      TrimEndSpaces(m, trail[..|trail| - 1]);
    }
  }

  /** A string with no white space at either end is left as it is. */
  lemma TrimOfTrimmed(m: string)
    requires IsTrimmed(m)
    ensures Trim(m) == m
  {
    if m != [] {
      assert Span(m, 0, IsSpace) == 0;
      assert TrimStart(m) == m;
    }
  }

  lemma TrimIdempotent(s: string)
    ensures Trim(Trim(s)) == Trim(s)
  {
    TrimOfTrimmed(Trim(s));
  }

  /** White space added at either end does not change what `trim` returns. */
  lemma TrimAroundSpaces(before: string, s: string, after: string)
    requires AllSpace(before) && AllSpace(after)
    ensures Trim(before + s + after) == Trim(s)
  {
    var lead, trail := TrimDecompose(s);
    Regroup(before, lead, Trim(s), trail, after);
    TrimUnique(before + lead, Trim(s), trail + after);
  }

  /** White space after a text does not change what `trim` returns. */
  lemma TrimSpacesAfter(s: string, after: string)
    requires AllSpace(after)
    ensures Trim(s + after) == Trim(s)
  {
    var lead, trail := TrimDecompose(s);
    RegroupRight(lead, Trim(s), trail, after);
    TrimUnique(lead, Trim(s), trail + after);
  }

  /** White space before a text does not change what `trim` returns. */
  lemma TrimSpacesBefore(before: string, s: string)
    requires AllSpace(before)
    ensures Trim(before + s) == Trim(s)
  {
    var lead, trail := TrimDecompose(s);
    RegroupLeft(before, lead, Trim(s), trail);
    TrimUnique(before + lead, Trim(s), trail);
  }

  /** A slice is the concatenation of its two parts. */
  lemma SliceParts(s: string, i: nat, j: nat, k: nat)
    requires i <= j <= k <= |s|
    ensures s[i..k] == s[i..j] + s[j..k]
  {
  }

  lemma RegroupRight(b: string, c: string, d: string, e: string)
    ensures (b + c + d) + e == b + c + (d + e)
  {
  }

  lemma RegroupLeft(a: string, b: string, c: string, d: string)
    ensures a + (b + c + d) == (a + b) + c + d
  {
  }

  lemma Regroup(a: string, b: string, c: string, d: string, e: string)
    ensures a + (b + c + d) + e == (a + b) + c + (d + e)
  {
  }

  /** The first occurrence of `c` in `s`. */
  function IndexOf(s: string, c: char): (i: nat)
    requires c in s
    ensures i < |s| && s[i] == c && c !in s[..i]
  {
    if s[0] == c then 0 else
      var i := 1 + IndexOf(s[1..], c);
      assert s[..i] == [s[0]] + s[1..][..i - 1];
      i
  }

  /** `String.prototype.split` with a one-character separator. */
  function Split(s: string, c: char): (parts: seq<string>)
    ensures |parts| >= 1
    ensures forall k :: 0 <= k < |parts| ==> c !in parts[k]
    decreases |s|
  {
    if c in s then
      var i := IndexOf(s, c);
      [s[..i]] + Split(s[i + 1..], c)
    else
      [s]
  }

  /** `Array.prototype.join` with a one-character separator. */
  function Join(parts: seq<string>, c: char): string
  {
    if parts == [] then []
    else if |parts| == 1 then parts[0]
    else parts[0] + [c] + Join(parts[1..], c)
  }

  /** Joining the pieces of a split gives back the input. */
  lemma {:induction false} JoinSplit(s: string, c: char)
    ensures Join(Split(s, c), c) == s
    decreases |s|
  {
    if c in s {
      var i := IndexOf(s, c);
      JoinSplit(s[i + 1..], c);
      SliceAround(s, i);
    }
  }

  /** A string is the text before an index, the character there and the text after it. */
  lemma SliceAround(s: string, i: nat)
    requires i < |s|
    ensures s == s[..i] + [s[i]] + s[i + 1..]
  {
  }

  /** Splitting a join of separator-free pieces gives back the pieces. */
  lemma {:induction false} SplitJoin(parts: seq<string>, c: char)
    requires |parts| >= 1
    requires forall k :: 0 <= k < |parts| ==> c !in parts[k]
    ensures Split(Join(parts, c), c) == parts
  {
    if |parts| > 1 {
      var s := Join(parts, c);
      var tail := Join(parts[1..], c);
      assert s == parts[0] + [c] + tail;
      SplitAtFirst(parts[0], c, tail);
      SplitJoin(parts[1..], c);
      assert Split(s, c) == [parts[0]] + parts[1..];
    }
  }

  /** A split of a separator-free head, a separator and a tail. */
  lemma SplitAtFirst(head: string, c: char, tail: string)
    requires c !in head
    ensures Split(head + [c] + tail, c) == [head] + Split(tail, c)
  {
    var s := head + [c] + tail;
    assert s[|head|] == c;
    assert s[..|head|] == head;
    assert IndexOf(s, c) == |head|;
    assert s[|head| + 1..] == tail;
  }

  /** The first piece of a split is the text before the first separator. */
  lemma SplitHead(s: string, c: char)
    ensures Split(s, c)[0] == if c in s then s[..IndexOf(s, c)] else s
  {
  }

  /** Re-joining every piece but the first gives the text after the first separator. */
  lemma SplitTailJoin(s: string, c: char)
    requires c in s
    ensures |Split(s, c)| >= 2
    ensures Join(Split(s, c)[1..], c) == s[IndexOf(s, c) + 1..]
  {
    SplitTail(s, c);
    JoinSplit(s[IndexOf(s, c) + 1..], c);
  }

  /** Every piece but the first is a piece of the text after the first separator. */
  lemma SplitTail(s: string, c: char)
    requires c in s
    ensures Split(s, c)[1..] == Split(s[IndexOf(s, c) + 1..], c)
  {
  }

  /** A further part is joined on at the end, after one separator. */
  lemma {:induction false} JoinAppend(parts: seq<string>, x: string, c: char)
    requires |parts| >= 1
    ensures Join(parts + [x], c) == Join(parts, c) + [c] + x
    decreases |parts|
  {
    if |parts| > 1 {
      assert (parts + [x])[1..] == parts[1..] + [x];
      JoinAppend(parts[1..], x, c);
    }
  }

  /** A split yields two or more pieces exactly when the separator occurs. */
  lemma SplitCount(s: string, c: char)
    ensures |Split(s, c)| >= 2 <==> c in s
  {
  }
}
