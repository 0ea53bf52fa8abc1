/** `parseRaw` (app/page.tsx:70-107): pasted text cut into blocks at blank lines, one contact
    read off each block, records with every field empty dropped. */
module ParseRaw {
  import opened Text
  import opened Options
  import opened Contacts
  import opened NameTitle
  import Email
  import Phone
  import Url

  /** `s[q..e]` matches the block separator `/\n\s*\n/`: a line feed, white space, and a line
      feed (white space includes line feeds, so it is all white space). */
  predicate SepShape(s: string, q: nat, e: nat) {
    && q + 2 <= e <= |s|
    && s[q] == '\n' && s[e - 1] == '\n'
    && forall k :: q <= k < e ==> IsSpace(s[k])
  }

  /** The last line feed in `s[lo..hi]`. */
  function LastNewline(s: string, lo: nat, hi: nat): (r: Option<nat>)
    requires lo <= hi <= |s|
    ensures r.Some? ==> lo <= r.value < hi && s[r.value] == '\n'
    ensures r.Some? ==> forall k :: r.value < k < hi ==> s[k] != '\n'
    ensures r.None? ==> forall k :: lo <= k < hi ==> s[k] != '\n'
    decreases hi
  {
    if hi == lo then None
    else if s[hi - 1] == '\n' then Some(hi - 1)
    else LastNewline(s, lo, hi - 1)
  }

  /** The end of the separator match at `q`: the greedy `\s*` runs over the white space, then
      gives back characters until a line feed can follow. */
  function SepEnd(s: string, q: nat): (r: Option<nat>)
    requires q <= |s|
    ensures r.Some? ==> q + 2 <= r.value <= |s|
  {
    if q < |s| && s[q] == '\n' then
      match LastNewline(s, q + 1, Span(s, q + 1, IsSpace))
      case Some(j) => Some(j + 1)
      case None => None
    else None
  }

  /** The pieces of `String.prototype.split` with the separator pattern, once a piece has
      started at 0 and no match starts before `q`: the search moves on one place at a time, and a
      match closes the piece and starts the next one where the match ends. */
  function SplitFrom(s: string, q: nat): (pieces: seq<string>)
    requires q <= |s|
    ensures |pieces| >= 1
    decreases |s|, |s| - q
  {
    if q == |s| then [s]
    else
      match SepEnd(s, q)
      case Some(e) => [s[..q]] + SplitFrom(s[e..], 0)
      case None => SplitFrom(s, q + 1)
  }

  /** `text.split(/\n\s*\n/)`. */
  function SplitBlocks(text: string): (pieces: seq<string>)
    ensures |pieces| >= 1
  {
    SplitFrom(text, 0)
  }

  /** `.map((x) => x.trim()).filter(Boolean)`: every piece trimmed, the empty ones dropped. */
  function TrimNonEmpty(parts: seq<string>): (r: seq<string>)
    ensures |r| <= |parts|
    ensures forall k :: 0 <= k < |r| ==> r[k] != [] && IsTrimmed(r[k])
  {
    if parts == [] then []
    else
      var t := Trim(parts[0]);
      (if t == [] then [] else [t]) + TrimNonEmpty(parts[1..])
  }

  /** The blocks of the pasted text. */
  function Blocks(text: string): seq<string> {
    TrimNonEmpty(SplitBlocks(text))
  }

  /** The non-empty trimmed lines of a block. */
  function Lines(block: string): seq<string> {
    TrimNonEmpty(Split(block, '\n'))
  }

  /** `lines[0] || ""`. */
  function FirstLine(block: string): string {
    var lines := Lines(block);
    if lines == [] then [] else lines[0]
  }

  /** The contact read off one block. */
  function ParseBlock(block: string): (r: Contact)
    ensures IsTrimmed(r.name) && IsTrimmed(r.title) && IsTrimmed(r.phone)
  {
    var nt := ExtractNameAndTitle(FirstLine(block));
    Contact(nt.name, nt.title, Phone.ExtractPhone(block), Email.ExtractEmail(block), Url.ExtractUrl(block))
  }

  /** `blocks.map(parseBlock)`. */
  function ParseBlocks(blocks: seq<string>): (r: seq<Contact>)
    ensures |r| == |blocks|
  {
    if blocks == [] then [] else [ParseBlock(blocks[0])] + ParseBlocks(blocks[1..])
  }

  /** The filter that drops records whose fields are all empty: what is kept is in order, and
      every record kept is one of the input's and is not blank. */
  function DropBlank(cs: seq<Contact>): (r: seq<Contact>)
    ensures |r| <= |cs|
    ensures forall k :: 0 <= k < |r| ==> !IsBlank(r[k]) && r[k] in cs
    ensures forall c :: c in cs && !IsBlank(c) ==> c in r
  {
    if cs == [] then []
    else (if IsBlank(cs[0]) then [] else [cs[0]]) + DropBlank(cs[1..])
  }

  /** `parseRaw`. */
  function ParseRaw(text: string): (r: seq<Contact>)
    ensures |r| <= |Blocks(text)|
    ensures forall k :: 0 <= k < |r| ==> !IsBlank(r[k])
  {
    DropBlank(ParseBlocks(Blocks(text)))
  }

  /** The separator matcher answers a match at `q` exactly when one exists there, and then the
      longest one, as the greedy `\s*` does. */
  lemma SepEndCorrect(s: string, q: nat)
    requires q <= |s|
    ensures SepEnd(s, q) == None ==> forall e: nat :: !SepShape(s, q, e)
    ensures SepEnd(s, q).Some? ==>
      && SepShape(s, q, SepEnd(s, q).value)
      && forall e: nat :: SepShape(s, q, e) ==> e <= SepEnd(s, q).value
  {
    if q < |s| && s[q] == '\n' {
      var r := Span(s, q + 1, IsSpace);
      forall e: nat | SepShape(s, q, e) ensures e - 1 < r {
      }
    }
  }

  /** The search skips places where no separator starts. */
  lemma {:induction false} SplitFromSkip(s: string, q: nat, q2: nat)
    requires q <= q2 <= |s|
    requires forall j :: q <= j < q2 ==> SepEnd(s, j) == None
    ensures SplitFrom(s, q) == SplitFrom(s, q2)
    decreases q2 - q
  {
    if q < q2 {
      SplitFromSkip(s, q + 1, q2);
    }
  }

  /** Text holding no separator is one piece. */
  lemma NoSeparatorOnePiece(s: string)
    requires forall q: nat, e: nat :: !SepShape(s, q, e)
    ensures SplitBlocks(s) == [s]
  {
    forall j | 0 <= j < |s| ensures SepEnd(s, j) == None {
      SepEndCorrect(s, j);
    }
    SplitFromSkip(s, 0, |s|);
  }

  /** A blank-line gap: white space holding a separator, so two line feeds or more, with any
      white space before the first and after the last. */
  ghost predicate IsBlankGap(gap: string) {
    AllSpace(gap) && exists q: nat, e: nat :: SepShape(gap, q, e)
  }

  /** In `a + gap + b` no separator starts inside `a`, since `a` ends in a character that is
      not white space and holds no separator itself. */
  lemma NoMatchInFirst(a: string, gap: string, b: string, j: nat)
    requires (a == [] || !IsSpace(a[|a| - 1])) && forall q: nat, e: nat :: !SepShape(a, q, e)
    requires j < |a|
    ensures SepEnd(a + gap + b, j) == None
  {
    var s := a + gap + b;
    SepEndCorrect(s, j);
    assert !IsSpace(s[|a| - 1]);
    assert s == a + (gap + b);
    if SepEnd(s, j).Some? {
      var e := SepEnd(s, j).value;
      if e <= |a| {
        SepShapePrefix(a, gap + b, j, e);
      }
    }
  }

  lemma SepShapePrefix(a: string, rest: string, j: nat, e: nat)
    requires SepShape(a + rest, j, e) && e <= |a|
    ensures SepShape(a, j, e)
  {
    assert forall k :: 0 <= k < |a| ==> (a + rest)[k] == a[k];
  }

  /** The first and the last line feed of a blank-line gap, with the white space before the
      first and after the last, neither of which holds a line feed. */
  lemma GapNewlines(gap: string) returns (i: nat, j: nat)
    requires IsBlankGap(gap)
    ensures i < j < |gap| && gap[i] == '\n' && gap[j] == '\n'
    ensures forall k :: 0 <= k < i ==> gap[k] != '\n'
    ensures forall k :: j < k < |gap| ==> gap[k] != '\n'
    ensures AllSpace(gap[..i]) && AllSpace(gap[j + 1..]) && '\n' !in gap[j + 1..]
  {
    var q: nat, e: nat :| SepShape(gap, q, e);
    assert gap[q] == '\n';
    i := IndexOf(gap, '\n');
    assert forall k :: 0 <= k < i ==> gap[k] == gap[..i][k];
    assert gap[e - 1] == '\n';
    j := LastNewline(gap, 0, |gap|).value;
  }

  /** At the first line feed of the gap the separator match runs to just past the last one,
      since `b` does not start with white space. */
  lemma MatchSpansGap(a: string, gap: string, b: string, i: nat, j: nat)
    requires AllSpace(gap) && i < j < |gap| && gap[i] == '\n' && gap[j] == '\n'
    requires forall k :: j < k < |gap| ==> gap[k] != '\n'
    requires b == [] || !IsSpace(b[0])
    ensures SepEnd(a + gap + b, |a| + i) == Some(|a| + j + 1)
  {
    var s := a + gap + b;
    SepEndCorrect(s, |a| + i);
    forall k | |a| + i <= k < |a| + j + 1 ensures IsSpace(s[k]) {
      assert s[k] == gap[k - |a|];
    }
    assert SepShape(s, |a| + i, |a| + j + 1);
    assert b != [] ==> s[|a| + |gap|] == b[0];
  }

  /** Text put in front leaves the separator shapes after it as they were. */
  lemma SepShapeShift(w: string, b: string, q: nat, e: nat)
    ensures SepShape(w + b, |w| + q, |w| + e) <==> SepShape(b, q, e)
  {
    var s := w + b;
    if q + 2 <= e <= |b| {
      assert forall k :: q <= k < e ==> s[|w| + k] == b[k];
      if forall k :: q <= k < e ==> IsSpace(b[k]) {
        forall k | |w| + q <= k < |w| + e ensures IsSpace(s[k]) {
          assert s[k] == b[k - |w|];
        }
      }
    }
  }

  /** The separator match at a place depends only on the text from there on. */
  lemma SepEndShift(w: string, b: string, q: nat)
    requires q <= |b|
    ensures SepEnd(b, q).None? ==> SepEnd(w + b, |w| + q).None?
    ensures SepEnd(b, q).Some? ==> SepEnd(w + b, |w| + q) == Some(|w| + SepEnd(b, q).value)
  {
    SepEndCorrect(b, q);
    SepEndCorrect(w + b, |w| + q);
    if SepEnd(w + b, |w| + q).Some? {
      SepShapeShift(w, b, q, SepEnd(w + b, |w| + q).value - |w|);
    }
    if SepEnd(b, q).Some? {
      SepShapeShift(w, b, q, SepEnd(b, q).value);
    }
  }

  /** Text put in front of the first piece joins that piece and changes no other. */
  lemma {:induction false} SplitFromPrefix(w: string, b: string, q: nat)
    requires q <= |b|
    ensures SplitFrom(w + b, |w| + q) == [w + SplitFrom(b, q)[0]] + SplitFrom(b, q)[1..]
    decreases |b| - q
  {
    if q == |b| {
      SplitFromPrefixEnd(w, b);
    } else {
      if SepEnd(b, q).Some? {
        SplitFromPrefixMatch(w, b, q, SepEnd(b, q).value);
      } else {
        SplitFromPrefix(w, b, q + 1);
        SplitFromPrefixStep(w, b, q);
      }
    }
  }

  lemma SplitFromPrefixStep(w: string, b: string, q: nat)
    requires q < |b| && SepEnd(b, q) == None
    requires SplitFrom(w + b, |w| + q + 1) == [w + SplitFrom(b, q + 1)[0]] + SplitFrom(b, q + 1)[1..]
    ensures SplitFrom(w + b, |w| + q) == [w + SplitFrom(b, q)[0]] + SplitFrom(b, q)[1..]
  {
    assert SepEnd(w + b, |w| + q) == None by {
      SepEndShift(w, b, q);
    }
    SplitFromStep(w + b, |w| + q);
    SplitFromStep(b, q);
  }

  /** Where no separator starts, the search moves on one place. */
  lemma SplitFromStep(s: string, q: nat)
    requires q < |s| && SepEnd(s, q) == None
    ensures SplitFrom(s, q) == SplitFrom(s, q + 1)
  {
  }

  lemma SplitFromPrefixEnd(w: string, b: string)
    ensures SplitFrom(w + b, |w| + |b|) == [w + SplitFrom(b, |b|)[0]] + SplitFrom(b, |b|)[1..]
  {
    var s := w + b;
    assert SplitFrom(s, |s|) == [s];
    assert SplitFrom(b, |b|) == [b];
  }

  lemma SplitFromPrefixMatch(w: string, b: string, q: nat, e: nat)
    requires q < |b| && SepEnd(b, q) == Some(e)
    ensures SplitFrom(w + b, |w| + q) == [w + SplitFrom(b, q)[0]] + SplitFrom(b, q)[1..]
  {
    assert SepEnd(w + b, |w| + q) == Some(|w| + e) by {
      SepEndShift(w, b, q);
    }
    ShiftedMatch(w + b, w, b, q, e);
    SplitFromAtMatch(b, q, e);
    SplitOffHead([b[..q]], SplitFrom(b[e..], 0));
  }

  /** The match case seen through the text `s`, which is `w + b`. */
  lemma ShiftedMatch(s: string, w: string, b: string, q: nat, e: nat)
    requires s == w + b && q < e <= |b| && SepEnd(s, |w| + q) == Some(|w| + e)
    ensures SplitFrom(s, |w| + q) == [w + b[..q]] + SplitFrom(b[e..], 0)
  {
    SplitFromAtMatch(s, |w| + q, |w| + e);
    SlicesOfAppend(w, b, q, e);
    var x, y := s[..|w| + q], s[|w| + e..];
    assert x == w + b[..q];
    assert y == b[e..];
  }

  lemma SlicesOfAppend(w: string, b: string, q: nat, e: nat)
    requires q <= e <= |b|
    ensures (w + b)[..|w| + q] == w + b[..q] && (w + b)[|w| + e..] == b[e..]
  {
  }

  /** A separator match at `q` closes the piece there; the rest is split afresh. */
  lemma SplitFromAtMatch(s: string, q: nat, e: nat)
    requires q < |s| && SepEnd(s, q) == Some(e)
    ensures SplitFrom(s, q) == [s[..q]] + SplitFrom(s[e..], 0)
  {
  }

  /** White space without a line feed in front of `b` changes none of its blocks. */
  lemma BlocksAfterSpaces(w: string, b: string)
    requires AllSpace(w) && '\n' !in w
    ensures TrimNonEmpty(SplitFrom(w + b, 0)) == Blocks(b)
  {
    SplitAfterSpaces(w, b);
    TrimNonEmptyLeadingSpaces(w, SplitBlocks(b));
  }

  /** White space without a line feed in front of `b` joins its first piece. */
  lemma SplitAfterSpaces(w: string, b: string)
    requires '\n' !in w
    ensures SplitFrom(w + b, 0) == [w + SplitBlocks(b)[0]] + SplitBlocks(b)[1..]
  {
    var s := w + b;
    forall j | 0 <= j < |w| ensures SepEnd(s, j) == None {
      assert s[j] == w[j];
    }
    SplitFromSkip(s, 0, |w|);
    SplitFromPrefix(w, b, 0);
  }

  /** White space in front of the first piece does not change what is kept. */
  lemma TrimNonEmptyLeadingSpaces(w: string, p: seq<string>)
    requires AllSpace(w) && |p| >= 1
    ensures TrimNonEmpty([w + p[0]] + p[1..]) == TrimNonEmpty(p)
  {
    TrimSpacesBefore(w, p[0]);
    SplitOffHead([w + p[0]], p[1..]);
    SplitOffHead([p[0]], p[1..]);
    assert p == [p[0]] + p[1..];
  }

  /** The first piece and the rest of the split of `s`, which is `a + gap + b`, cut at the
      first line feed of the gap, at `i`, and just past its last, at `j`, in terms of `a`,
      `gap` and `b`. */
  lemma SplitAtGap(s: string, a: string, gap: string, b: string, i: nat, j: nat)
    requires s == a + gap + b && i < j < |gap|
    requires SplitBlocks(s) == [s[..|a| + i]] + SplitFrom(s[|a| + j + 1..], 0)
    ensures SplitBlocks(s) == [a + gap[..i]] + SplitFrom(gap[j + 1..] + b, 0)
  {
    TakeInMiddle(a, gap, b, i);
    DropInMiddle(a, gap, b, j + 1);
    var x, y := s[..|a| + i], s[|a| + j + 1..];
    assert x == a + gap[..i];
    assert y == gap[j + 1..] + b;
  }

  /** The first piece ends where the first separator match starts; the rest is split afresh
      from where that match ends. */
  lemma SplitAtFirstMatch(s: string, q: nat, e: nat)
    requires q < |s| && forall p :: 0 <= p < q ==> SepEnd(s, p) == None
    requires SepEnd(s, q) == Some(e)
    ensures SplitBlocks(s) == [s[..q]] + SplitFrom(s[e..], 0)
  {
    SplitFromSkip(s, 0, q);
  }

  /** No separator starts in `a` or in the gap before its first line feed. */
  lemma NoMatchBeforeGap(a: string, gap: string, b: string, i: nat)
    requires (a == [] || !IsSpace(a[|a| - 1])) && forall q: nat, e: nat :: !SepShape(a, q, e)
    requires i <= |gap| && forall k :: 0 <= k < i ==> gap[k] != '\n'
    ensures forall p :: 0 <= p < |a| + i ==> SepEnd(a + gap + b, p) == None
  {
    var s := a + gap + b;
    forall p | 0 <= p < |a| + i ensures SepEnd(s, p) == None {
      if p < |a| {
        NoMatchInFirst(a, gap, b, p);
      } else {
        assert s[p] == gap[p - |a|];
      }
    }
  }

  lemma TakeInMiddle(x: string, y: string, z: string, n: nat)
    requires n <= |y|
    ensures (x + y + z)[..|x| + n] == x + y[..n]
  {
  }

  lemma DropInMiddle(x: string, y: string, z: string, n: nat)
    requires n <= |y|
    ensures (x + y + z)[|x| + n..] == y[n..] + z
  {
    assert x + y + z == (x + y[..n]) + (y[n..] + z);
  }

  /** Splitting at a blank-line gap: the first piece is `a` with the white space before the
      first line feed of the gap, and the rest is split from just past its last line feed,
      where only white space without a line feed comes before `b`. */
  lemma SplitAtBlankGap(a: string, gap: string, b: string) returns (i: nat, j: nat)
    requires (a == [] || !IsSpace(a[|a| - 1])) && forall q: nat, e: nat :: !SepShape(a, q, e)
    requires IsBlankGap(gap)
    requires b == [] || !IsSpace(b[0])
    ensures i < j < |gap|
    ensures SplitBlocks(a + gap + b) == [a + gap[..i]] + SplitFrom(gap[j + 1..] + b, 0)
    ensures AllSpace(gap[..i]) && AllSpace(gap[j + 1..]) && '\n' !in gap[j + 1..]
  {
    i, j := GapNewlines(gap);
    FirstMatchAtGap(a + gap + b, a, gap, b, i, j);
    SplitAtGap(a + gap + b, a, gap, b, i, j);
  }

  /** In `s`, which is `a + gap + b`, the first separator match starts at the first line feed
      of the gap, at `i`, and ends just past its last, at `j`. */
  lemma FirstMatchAtGap(s: string, a: string, gap: string, b: string, i: nat, j: nat)
    requires s == a + gap + b
    requires (a == [] || !IsSpace(a[|a| - 1])) && forall q: nat, e: nat :: !SepShape(a, q, e)
    requires AllSpace(gap) && i < j < |gap| && gap[i] == '\n' && gap[j] == '\n'
    requires forall k :: 0 <= k < i ==> gap[k] != '\n'
    requires forall k :: j < k < |gap| ==> gap[k] != '\n'
    requires b == [] || !IsSpace(b[0])
    ensures SplitBlocks(s) == [s[..|a| + i]] + SplitFrom(s[|a| + j + 1..], 0)
  {
    NoMatchBeforeGap(a, gap, b, i);
    MatchSpansGap(a, gap, b, i, j);
    SplitAtFirstMatch(s, |a| + i, |a| + j + 1);
  }

  /** Splitting at a blank-line gap: the blocks of `a + gap + b` are those of `a` followed by
      those of `b`, whatever white space the gap holds around its line feeds. */
  lemma BlocksAppend(a: string, gap: string, b: string)
    requires (a == [] || !IsSpace(a[|a| - 1])) && forall q: nat, e: nat :: !SepShape(a, q, e)
    requires IsBlankGap(gap)
    requires b == [] || !IsSpace(b[0])
    ensures Blocks(a + gap + b) == Blocks(a) + Blocks(b)
  {
    var i, j := SplitAtBlankGap(a, gap, b);
    NoSeparatorOnePiece(a);
    BlocksOfPieces(a, gap[..i], gap[j + 1..], b);
  }

  /** The blocks of a first piece `a + lead` and the pieces of `trail + b`, with `lead` and
      `trail` white space and `a` one piece by itself. */
  lemma BlocksOfPieces(a: string, lead: string, trail: string, b: string)
    requires SplitBlocks(a) == [a]
    requires AllSpace(lead) && AllSpace(trail) && '\n' !in trail
    ensures TrimNonEmpty([a + lead] + SplitFrom(trail + b, 0)) == Blocks(a) + Blocks(b)
  {
    TrimSpacesAfter(a, lead);
    TrimNonEmptyAppend([a + lead], SplitFrom(trail + b, 0));
    BlocksAfterSpaces(trail, b);
  }

  lemma {:induction false} TrimNonEmptyAppend(x: seq<string>, y: seq<string>)
    ensures TrimNonEmpty(x + y) == TrimNonEmpty(x) + TrimNonEmpty(y)
    decreases |x|
  {
    if x != [] {
      SplitOffHead(x, y);
      TrimNonEmptyAppend(x[1..], y);
      var h := if Trim(x[0]) == [] then [] else [Trim(x[0])];
      Associate(h, TrimNonEmpty(x[1..]), TrimNonEmpty(y));
    } else {
      EmptyAppend(x, y);
    }
  }

  lemma {:induction false} ParseBlocksAppend(x: seq<string>, y: seq<string>)
    ensures ParseBlocks(x + y) == ParseBlocks(x) + ParseBlocks(y)
    decreases |x|
  {
    if x != [] {
      SplitOffHead(x, y);
      ParseBlocksAppend(x[1..], y);
      Associate([ParseBlock(x[0])], ParseBlocks(x[1..]), ParseBlocks(y));
    } else {
      EmptyAppend(x, y);
    }
  }

  lemma {:induction false} DropBlankAppend(x: seq<Contact>, y: seq<Contact>)
    ensures DropBlank(x + y) == DropBlank(x) + DropBlank(y)
    decreases |x|
  {
    if x != [] {
      SplitOffHead(x, y);
      DropBlankAppend(x[1..], y);
      var h := if IsBlank(x[0]) then [] else [x[0]];
      Associate(h, DropBlank(x[1..]), DropBlank(y));
    } else {
      EmptyAppend(x, y);
    }
  }

  lemma SplitOffHead<T>(x: seq<T>, y: seq<T>)
    requires x != []
    ensures (x + y)[0] == x[0] && (x + y)[1..] == x[1..] + y && x + y != []
  {
  }

  lemma EmptyAppend<T>(x: seq<T>, y: seq<T>)
    requires x == []
    ensures x + y == y
  {
  }

  lemma Associate<T>(a: seq<T>, b: seq<T>, c: seq<T>)
    ensures a + (b + c) == a + b + c
  {
  }

  /** Blocks separated by a blank line are parsed independently and in order: the contacts of
      `a + gap + b` are those of `a` followed by those of `b`. */
  lemma ParseRawAppend(a: string, gap: string, b: string)
    requires (a == [] || !IsSpace(a[|a| - 1])) && forall q: nat, e: nat :: !SepShape(a, q, e)
    requires IsBlankGap(gap)
    requires b == [] || !IsSpace(b[0])
    ensures ParseRaw(a + gap + b) == ParseRaw(a) + ParseRaw(b)
  {
    BlocksAppend(a, gap, b);
    ParseBlocksAppend(Blocks(a), Blocks(b));
    DropBlankAppend(ParseBlocks(Blocks(a)), ParseBlocks(Blocks(b)));
  }

  /** Text holding no blank line is read as a single block: one contact, or none if every field
      of it is empty. */
  lemma ParseRawOneBlock(text: string)
    requires forall q: nat, e: nat :: !SepShape(text, q, e)
    ensures AllSpace(text) ==> ParseRaw(text) == []
    ensures !AllSpace(text) ==>
      ParseRaw(text) == if IsBlank(ParseBlock(Trim(text))) then [] else [ParseBlock(Trim(text))]
  {
    NoSeparatorOnePiece(text);
    assert [text][1..] == [];
    assert Blocks(text) == if Trim(text) == [] then [] else [Trim(text)];
  }

  /** Every piece of text made only of white space is made only of white space. */
  lemma {:induction false} SplitFromAllSpace(s: string, q: nat)
    requires q <= |s| && AllSpace(s)
    ensures forall k :: 0 <= k < |SplitFrom(s, q)| ==> AllSpace(SplitFrom(s, q)[k])
    decreases |s|, |s| - q
  {
    if q < |s| {
      match SepEnd(s, q)
      case Some(e) =>
        SplitFromAllSpace(s[e..], 0);
      case None =>
        SplitFromAllSpace(s, q + 1);
    }
  }

  lemma {:induction false} TrimNonEmptyAllSpace(parts: seq<string>)
    requires forall k :: 0 <= k < |parts| ==> AllSpace(parts[k])
    ensures TrimNonEmpty(parts) == []
    decreases |parts|
  {
    if parts != [] {
      TrimNonEmptyAllSpace(parts[1..]);
    }
  }

  /** Text made only of white space, blank lines included, holds no contact. */
  lemma ParseRawAllSpace(text: string)
    requires AllSpace(text)
    ensures ParseRaw(text) == []
  {
    SplitFromAllSpace(text, 0);
    TrimNonEmptyAllSpace(SplitBlocks(text));
  }

  /** A piece holds no separator: the search found none starting inside it. */
  lemma {:induction false} SplitFromSeparatorFree(s: string, q: nat)
    requires q <= |s|
    requires forall j :: 0 <= j < q ==> SepEnd(s, j) == None
    ensures forall k, j: nat, e: nat :: 0 <= k < |SplitFrom(s, q)| ==> !SepShape(SplitFrom(s, q)[k], j, e)
    decreases |s|, |s| - q
  {
    var pieces := SplitFrom(s, q);
    if q == |s| {
      forall j: nat, e: nat | SepShape(s, j, e) ensures false {
        SepEndCorrect(s, j);
      }
    } else {
      match SepEnd(s, q)
      case Some(e) =>
        forall j: nat, e': nat | SepShape(s[..q], j, e') ensures false {
          assert SepShape(s, j, e');
          SepEndCorrect(s, j);
        }
        SplitFromSeparatorFree(s[e..], 0);
      case None =>
        SplitFromSeparatorFree(s, q + 1);
    }
  }

  /** A separator inside a piece of text is one in any text around it. */
  lemma SepShapeInside(lead: string, t: string, trail: string, j: nat, e: nat)
    requires SepShape(t, j, e)
    ensures SepShape(lead + t + trail, |lead| + j, |lead| + e)
  {
    var s := lead + t + trail;
    forall k | |lead| + j <= k < |lead| + e ensures IsSpace(s[k]) {
      assert s[k] == t[k - |lead|];
    }
  }

  /** The blocks are trimmed, non-empty and hold no blank line. */
  lemma BlocksShape(text: string)
    ensures forall k :: 0 <= k < |Blocks(text)| ==> Blocks(text)[k] != [] && IsTrimmed(Blocks(text)[k])
    ensures forall k, j: nat, e: nat :: 0 <= k < |Blocks(text)| ==> !SepShape(Blocks(text)[k], j, e)
  {
    SplitFromSeparatorFree(text, 0);
    TrimNonEmptySeparatorFree(SplitBlocks(text));
  }

  lemma {:induction false} TrimNonEmptySeparatorFree(parts: seq<string>)
    requires forall k, j: nat, e: nat :: 0 <= k < |parts| ==> !SepShape(parts[k], j, e)
    ensures forall k, j: nat, e: nat :: 0 <= k < |TrimNonEmpty(parts)| ==> !SepShape(TrimNonEmpty(parts)[k], j, e)
    decreases |parts|
  {
    if parts != [] {
      TrimNonEmptySeparatorFree(parts[1..]);
      var lead, trail := TrimDecompose(parts[0]);
      var t := Trim(parts[0]);
      forall j: nat, e: nat | SepShape(t, j, e) ensures false {
        SepShapeInside(lead, t, trail, j, e);
      }
    }
  }

  /** The first line of a block is its text up to the first line feed, trimmed, and it is not
      empty: `lines[0] || ""` never falls back to "". */
  lemma FirstLineOfBlock(block: string)
    requires block != [] && IsTrimmed(block)
    ensures FirstLine(block) != []
    ensures '\n' in block ==> FirstLine(block) == Trim(block[..IndexOf(block, '\n')])
    ensures '\n' !in block ==> FirstLine(block) == block
  {
    var parts := Split(block, '\n');
    SplitHead(block, '\n');
    assert !IsSpace(parts[0][0]) by {
      if '\n' in block {
        assert parts[0] == block[..IndexOf(block, '\n')];
        assert IndexOf(block, '\n') > 0;
      }
    }
    assert Trim(parts[0]) != [];
    if '\n' !in block {
      TrimOfTrimmed(block);
    }
  }

  /** The record filter is reachable: a block of a lone middle dot gives a record with every
      field empty, and no contact. */
  lemma LoneMiddleDotIsDropped()
    ensures ParseRaw([MiddleDot]) == []
  {
    var s := [MiddleDot];
    NoSeparatorOnePiece(s);
    TrimOfTrimmed(s);
    assert Blocks(s) == [s];
    assert Split(s, '\n') == [s];
    assert FirstLine(s) == s;
    assert DashMatch(s) == None;
    assert Split(s, MiddleDot) == [[], []] by {
      assert IndexOf(s, MiddleDot) == 0;
      assert s[1..] == [];
    }
    assert ExtractNameAndTitle(s) == NameTitle([], []);
    Email.ExtractEmailSpec(s);
    Phone.ExtractPhoneSpec(s);
    Url.ExtractUrlSpec(s);
    assert IsBlank(ParseBlock(s));
  }
}
