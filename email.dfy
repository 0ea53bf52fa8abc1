/** `extractEmail` (app/page.tsx:13-18): the first match of
    `/[A-Z0-9._%+-]+@[A-Z0-9.-]+\.[A-Z]{2,}/gi` in a block, or "". */
module Email {
  import opened Text
  import opened Options

  /** `[A-Z0-9._%+-]` under the `i` flag. */
  predicate IsLocalChar(c: char) {
    IsLetter(c) || IsDigit(c) || c == '.' || c == '_' || c == '%' || c == '+' || c == '-'
  }

  /** `[A-Z0-9.-]` under the `i` flag. */
  predicate IsDomainChar(c: char) {
    IsLetter(c) || IsDigit(c) || c == '.' || c == '-'
  }

  /** After the '@' at `at`: a non-empty domain, the '.' at `dot`, then two or more letters
      up to `e`. */
  predicate TldShape(s: string, at: nat, dot: nat, e: nat) {
    && at + 1 < dot && dot + 3 <= e <= |s|
    && (forall k :: at < k < dot ==> IsDomainChar(s[k]))
    && s[dot] == '.'
    && (forall k :: dot < k < e ==> IsLetter(s[k]))
  }

  /** `s[b..e]` is a match of the pattern whose '@' is at `at` and whose last '.' is at `dot`. */
  predicate EmailShape(s: string, b: nat, at: nat, dot: nat, e: nat) {
    && b < at
    && TldShape(s, at, dot, e)
    && s[at] == '@'
    && (forall k :: b <= k < at ==> IsLocalChar(s[k]))
  }

  /** `s[b..e]` is the match the regular expression reports: no match starts earlier, and no
      match starting at `b` is longer. */
  ghost predicate LeftmostLongest(s: string, b: nat, e: nat) {
    && (exists at: nat, dot: nat :: EmailShape(s, b, at, dot, e))
    && (forall b': nat, at: nat, dot: nat, e': nat :: EmailShape(s, b', at, dot, e') ==> b <= b' && (b' == b ==> e' <= e))
  }

  /** Backtracking of the greedy `[A-Z0-9.-]+`: the domain is tried ending just before `dot`,
      for `dot` going down from the end of the greedy run to two places past the '@'; the first
      `dot` followed by `\.[A-Z]{2,}` wins. */
  function DomainBacktrack(s: string, at: nat, dot: nat): (r: Option<nat>)
    requires dot <= |s|
    ensures r.Some? ==> at + 1 < r.value <= dot && r.value < |s|
    decreases dot
  {
    if dot <= at + 1 then None
    else if dot < |s| && s[dot] == '.' && Span(s, dot + 1, IsLetter) >= dot + 3 then Some(dot)
    else DomainBacktrack(s, at, dot - 1)
  }

  /** The end of the match starting at `b`, if there is one. The local part is the whole greedy
      run: '@' is not in its class, so backtracking into it cannot help. */
  function EmailAt(s: string, b: nat): (r: Option<nat>)
    requires b <= |s|
    ensures r.Some? ==> b < r.value <= |s|
  {
    var at := Span(s, b, IsLocalChar);
    if at == b || at == |s| || s[at] != '@' then None
    else
      match DomainBacktrack(s, at, Span(s, at + 1, IsDomainChar))
      case Some(dot) => Some(Span(s, dot + 1, IsLetter))
      case None => None
  }

  /** The leftmost match starting at or after `b`, as start and end. */
  function FirstEmail(s: string, b: nat): (r: Option<(nat, nat)>)
    requires b <= |s|
    ensures r.Some? ==> b <= r.value.0 < r.value.1 <= |s|
    decreases |s| - b
  {
    match EmailAt(s, b)
    case Some(e) => Some((b, e))
    case None => if b == |s| then None else FirstEmail(s, b + 1)
  }

  /** `extractEmail`: `match[0]` of the global match, i.e. the leftmost match, or "". */
  function ExtractEmail(block: string): (r: string)
    ensures |r| <= |block|
  {
    match FirstEmail(block, 0)
    case Some((b, e)) => block[b..e]
    case None => []
  }

  /** The backtracking answers a '.' where a top-level domain starts. */
  lemma {:induction false} DomainBacktrackFound(s: string, at: nat, dot: nat)
    requires dot <= |s| && DomainBacktrack(s, at, dot).Some?
    requires forall k :: at < k < dot ==> IsDomainChar(s[k])
    ensures var d := DomainBacktrack(s, at, dot).value;
      d <= dot && TldShape(s, at, d, Span(s, d + 1, IsLetter))
    decreases dot
  {
    if dot < |s| && s[dot] == '.' && Span(s, dot + 1, IsLetter) >= dot + 3 {
      LastDotWins(s, at, dot);
    } else {
      DomainBacktrackFound(s, at, dot - 1);
    }
  }

  /** Any top-level domain starting at or before `dot` is found, and ends no later than the
      one the backtracking answers. */
  lemma {:induction false} DomainBacktrackBest(s: string, at: nat, dot: nat, d': nat, e': nat)
    requires dot <= |s| && TldShape(s, at, d', e') && d' <= dot
    requires forall k :: at < k < dot ==> IsDomainChar(s[k])
    ensures DomainBacktrack(s, at, dot).Some?
    ensures e' <= Span(s, DomainBacktrack(s, at, dot).value + 1, IsLetter)
    decreases dot
  {
    if dot < |s| && s[dot] == '.' && Span(s, dot + 1, IsLetter) >= dot + 3 {
      LastDotWins(s, at, dot);
    } else {
      NoTldAt(s, at, dot);
      DomainBacktrackBest(s, at, dot - 1, d', e');
    }
  }

  /** The backtracking answers the last '.' that a top-level domain can start at, within the
      greedy domain run, and that domain is the longest. */
  lemma DomainBacktrackCorrect(s: string, at: nat, dot: nat)
    requires dot <= |s|
    requires forall k :: at < k < dot ==> IsDomainChar(s[k])
    ensures DomainBacktrack(s, at, dot) == None ==>
      forall d: nat, e: nat :: TldShape(s, at, d, e) ==> d > dot
    ensures DomainBacktrack(s, at, dot).Some? ==>
      var d := DomainBacktrack(s, at, dot).value;
      && d <= dot && TldShape(s, at, d, Span(s, d + 1, IsLetter))
      && forall d': nat, e': nat :: TldShape(s, at, d', e') && d' <= dot ==> e' <= Span(s, d + 1, IsLetter)
  {
    if DomainBacktrack(s, at, dot).Some? {
      DomainBacktrackFound(s, at, dot);
    }
    forall d': nat, e': nat | TldShape(s, at, d', e') && d' <= dot
      ensures DomainBacktrack(s, at, dot).Some? && e' <= Span(s, DomainBacktrack(s, at, dot).value + 1, IsLetter)
    {
      DomainBacktrackBest(s, at, dot, d', e');
    }
  }

  /** A '.' followed by two or more letters, tried first, ends the longest top-level domain. */
  lemma LastDotWins(s: string, at: nat, dot: nat)
    requires at + 1 < dot < |s| && s[dot] == '.' && Span(s, dot + 1, IsLetter) >= dot + 3
    requires forall k :: at < k < dot ==> IsDomainChar(s[k])
    ensures TldShape(s, at, dot, Span(s, dot + 1, IsLetter))
    ensures forall d': nat, e': nat :: TldShape(s, at, d', e') && d' <= dot ==> e' <= Span(s, dot + 1, IsLetter)
  {
    var e := Span(s, dot + 1, IsLetter);
    forall d': nat, e': nat | TldShape(s, at, d', e') && d' <= dot
      ensures e' <= e
    {
      var atDot := s[dot];
      assert d' < dot && e' > dot ==> IsLetter(atDot);
    }
  }

  /** Where the backtracking rejects `dot`, no top-level domain starts there. */
  lemma NoTldAt(s: string, at: nat, dot: nat)
    requires !(dot < |s| && s[dot] == '.' && Span(s, dot + 1, IsLetter) >= dot + 3)
    ensures forall e: nat :: !TldShape(s, at, dot, e)
  {
  }

  /** In any match starting at `b`, the '@' ends the greedy local-part run and the final '.'
      lies inside the greedy domain run. */
  lemma ShapeForced(s: string, b: nat, at: nat, dot: nat, e: nat)
    requires b <= |s| && EmailShape(s, b, at, dot, e)
    ensures at == Span(s, b, IsLocalChar)
    ensures dot < Span(s, at + 1, IsDomainChar)
  {
  }

  /** The matcher at `b` answers a match exactly when there is one, and the longest. */
  lemma EmailAtCorrect(s: string, b: nat)
    requires b <= |s|
    ensures EmailAt(s, b) == None ==> forall at: nat, dot: nat, e: nat :: !EmailShape(s, b, at, dot, e)
    ensures EmailAt(s, b).Some? ==>
      && (exists at: nat, dot: nat :: EmailShape(s, b, at, dot, EmailAt(s, b).value))
      && forall at: nat, dot: nat, e: nat :: EmailShape(s, b, at, dot, e) ==> e <= EmailAt(s, b).value
  {
    forall at: nat, dot: nat, e: nat | EmailShape(s, b, at, dot, e)
      ensures EmailAt(s, b).Some? && e <= EmailAt(s, b).value
    {
      EmailAtComplete(s, b, at, dot, e);
    }
    if EmailAt(s, b).Some? {
      EmailAtSound(s, b);
    }
  }

  lemma EmailAtComplete(s: string, b: nat, at': nat, dot': nat, e': nat)
    requires b <= |s| && EmailShape(s, b, at', dot', e')
    ensures EmailAt(s, b).Some? && e' <= EmailAt(s, b).value
  {
    ShapeForced(s, b, at', dot', e');
    var at := Span(s, b, IsLocalChar);
    var d := Span(s, at + 1, IsDomainChar);
    DomainBacktrackCorrect(s, at, d);
    assert TldShape(s, at, dot', e') && dot' <= d;
    var dot := DomainBacktrack(s, at, d).value;
    EmailAtFound(s, b, at, d, dot);
  }

  lemma EmailAtSound(s: string, b: nat)
    requires b <= |s| && EmailAt(s, b).Some?
    ensures exists at: nat, dot: nat :: EmailShape(s, b, at, dot, EmailAt(s, b).value)
  {
    var at := Span(s, b, IsLocalChar);
    var d := Span(s, at + 1, IsDomainChar);
    DomainBacktrackCorrect(s, at, d);
    var dot := DomainBacktrack(s, at, d).value;
    EmailAtFound(s, b, at, d, dot);
    assert EmailShape(s, b, at, dot, Span(s, dot + 1, IsLetter));
  }

  /** The matcher's answer once the greedy runs and the backtracking are known. */
  lemma EmailAtFound(s: string, b: nat, at: nat, d: nat, dot: nat)
    requires b <= |s| && at == Span(s, b, IsLocalChar) && b < at < |s| && s[at] == '@'
    requires d == Span(s, at + 1, IsDomainChar) && DomainBacktrack(s, at, d) == Some(dot)
    ensures EmailAt(s, b) == Some(Span(s, dot + 1, IsLetter))
  {
  }

  /** The leftmost search answers a match at its start. */
  lemma {:induction false} FirstEmailFound(s: string, b: nat)
    requires b <= |s| && FirstEmail(s, b).Some?
    ensures b <= FirstEmail(s, b).value.0 <= |s|
    ensures EmailAt(s, FirstEmail(s, b).value.0) == Some(FirstEmail(s, b).value.1)
    decreases |s| - b
  {
    if EmailAt(s, b).None? {
      FirstEmailFound(s, b + 1);
    }
  }

  /** The leftmost search finds a match at or before any start where a match exists. */
  lemma {:induction false} FirstEmailLeftmost(s: string, b: nat, b': nat)
    requires b <= b' <= |s| && EmailAt(s, b').Some?
    ensures FirstEmail(s, b).Some? && FirstEmail(s, b).value.0 <= b'
    decreases b' - b
  {
    if EmailAt(s, b).None? {
      FirstEmailLeftmost(s, b + 1, b');
    }
  }

  /** The leftmost search: the match at the first start where there is one. */
  lemma FirstEmailCorrect(s: string, b: nat)
    requires b <= |s|
    ensures FirstEmail(s, b) == None ==> forall b' :: b <= b' <= |s| ==> EmailAt(s, b') == None
    ensures FirstEmail(s, b).Some? ==>
      && b <= FirstEmail(s, b).value.0 <= |s|
      && EmailAt(s, FirstEmail(s, b).value.0) == Some(FirstEmail(s, b).value.1)
      && forall b' :: b <= b' < FirstEmail(s, b).value.0 ==> EmailAt(s, b') == None
  {
    if FirstEmail(s, b).Some? {
      FirstEmailFound(s, b);
    }
    forall b' | b <= b' <= |s| && EmailAt(s, b').Some?
      ensures FirstEmail(s, b).Some? && FirstEmail(s, b).value.0 <= b'
    {
      FirstEmailLeftmost(s, b, b');
    }
  }

  /** The leftmost match is also the longest at its start, and it is not preceded by a
      character of the local-part class. */
  lemma FirstEmailLeftmostLongest(s: string, b: nat, e: nat)
    requires FirstEmail(s, 0) == Some((b, e))
    ensures b <= e <= |s|
    ensures LeftmostLongest(s, b, e)
    ensures b == 0 || !IsLocalChar(s[b - 1])
  {
    FirstEmailFound(s, 0);
    EmailAtSound(s, b);
    var at: nat, dot: nat :| EmailShape(s, b, at, dot, e);
    forall b': nat, at': nat, dot': nat, e': nat | EmailShape(s, b', at', dot', e')
      ensures b <= b' && (b' == b ==> e' <= e)
    {
      EmailAtComplete(s, b', at', dot', e');
      FirstEmailLeftmost(s, 0, b');
    }
    if b > 0 && IsLocalChar(s[b - 1]) {
      assert EmailShape(s, b - 1, at, dot, e);
    }
  }

  /** What `extractEmail` returns: "" exactly when the block holds no match, and otherwise the
      leftmost, longest match, which is not preceded by a character of the local-part class. */
  lemma ExtractEmailSpec(s: string)
    ensures ExtractEmail(s) == [] <==> forall b: nat, at: nat, dot: nat, e: nat :: !EmailShape(s, b, at, dot, e)
    ensures ExtractEmail(s) != [] ==>
      exists b: nat, e: nat :: b <= e <= |s| && ExtractEmail(s) == s[b..e] && LeftmostLongest(s, b, e)
        && (b == 0 || !IsLocalChar(s[b - 1]))
  {
    match FirstEmail(s, 0)
    case None =>
      NoEmailNoShape(s);
    case Some((b, e)) =>
      FirstEmailLeftmostLongest(s, b, e);
      var at: nat, dot: nat :| EmailShape(s, b, at, dot, e);
      assert ExtractEmail(s) == s[b..e] && |s[b..e]| > 0;
  }

  /** When the search finds nothing, no substring has the shape of a match. */
  lemma NoEmailNoShape(s: string)
    requires FirstEmail(s, 0) == None
    ensures forall b: nat, at: nat, dot: nat, e: nat :: !EmailShape(s, b, at, dot, e)
  {
    FirstEmailCorrect(s, 0);
    forall b: nat, at: nat, dot: nat, e: nat | EmailShape(s, b, at, dot, e)
      ensures false
    {
      EmailAtCorrect(s, b);
    }
  }
}
