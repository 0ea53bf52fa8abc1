/** `extractPhone` (app/page.tsx:20-31): every match of `/(\+?\d[\d\.\-\s\(\)]{6,}\d)/g` in a
    block, the longest of them (the first one among equally long ones, as the stable sort by
    descending length leaves it in front), trimmed; "" when there is none. */
module Phone {
  import opened Text
  import opened Options

  /** `[\d\.\-\s\(\)]`. */
  predicate IsPhoneChar(c: char) {
    IsDigit(c) || c == '.' || c == '-' || c == '(' || c == ')' || IsSpace(c)
  }

  /** Where the mandatory first digit of a match starting at `b` stands: after the optional '+'. */
  function DigitStart(s: string, b: nat): nat
    requires b < |s|
  {
    if s[b] == '+' then b + 1 else b
  }

  /** `s[b..e]` matches the pattern: an optional '+', a digit, six or more characters of the
      class, and a closing digit. */
  predicate PhoneShape(s: string, b: nat, e: nat) {
    && b < e <= |s|
    && var q := DigitStart(s, b);
    && q + 8 <= e
    && IsDigit(s[q])
    && IsDigit(s[e - 1])
    && forall k :: q < k < e - 1 ==> IsPhoneChar(s[k])
  }

  function Length(m: (nat, nat)): int {
    m.1 - m.0
  }

  /** Backtracking of the greedy `[...]{6,}`: the closing `\d` is tried at `m`, for `m` going down
      from the end of the greedy run to seven places past the first digit `q`. */
  function DigitBacktrack(s: string, q: nat, m: nat): (r: Option<nat>)
    requires m <= |s|
    ensures r.Some? ==> q + 8 <= r.value <= m + 1 && r.value <= |s|
    decreases m
  {
    if m < q + 7 then None
    else if m < |s| && IsDigit(s[m]) then Some(m + 1)
    else DigitBacktrack(s, q, m - 1)
  }

  /** The end of the match starting at `b`, if there is one. With a '+' at `b` the pattern first
      takes it; leaving it out cannot help, since `\d` would then face the '+'. */
  function PhoneAt(s: string, b: nat): (r: Option<nat>)
    requires b <= |s|
    ensures r.Some? ==> b + 8 <= r.value <= |s|
  {
    if b == |s| then None
    else
      var q := DigitStart(s, b);
      if q >= |s| || !IsDigit(s[q]) then None
      else DigitBacktrack(s, q, Span(s, q + 1, IsPhoneChar))
  }

  /** The leftmost match starting at or after `from`, as start and end. */
  function FirstPhone(s: string, from: nat): (r: Option<(nat, nat)>)
    requires from <= |s|
    ensures r.Some? ==> from <= r.value.0 < r.value.1 <= |s|
    decreases |s| - from
  {
    match PhoneAt(s, from)
    case Some(e) => Some((from, e))
    case None => if from == |s| then None else FirstPhone(s, from + 1)
  }

  /** `block.match(phoneRegex)` with the `g` flag: the matches found left to right, each search
      resuming where the previous match ended; as start and end positions. */
  function PhoneMatches(s: string, from: nat): (ms: seq<(nat, nat)>)
    requires from <= |s|
    ensures forall k :: 0 <= k < |ms| ==> from <= ms[k].0 < ms[k].1 <= |s|
    decreases |s| - from
  {
    match FirstPhone(s, from)
    case None => []
    case Some((b, e)) => [(b, e)] + PhoneMatches(s, e)
  }

  /** `sorted[0]` after the stable sort by descending length: the first of the longest. */
  function FirstLongest(ms: seq<(nat, nat)>): (i: nat)
    requires |ms| > 0
    ensures i < |ms|
    ensures forall k :: 0 <= k < |ms| ==> Length(ms[k]) <= Length(ms[i])
    ensures forall k :: 0 <= k < i ==> Length(ms[k]) < Length(ms[i])
  {
    if |ms| == 1 then 0
    else
      var j := 1 + FirstLongest(ms[1..]);
      assert forall k :: 1 <= k < |ms| ==> ms[k] == ms[1..][k - 1];
      if Length(ms[0]) >= Length(ms[j]) then 0 else j
  }

  /** `extractPhone`. */
  function ExtractPhone(block: string): (r: string)
    ensures IsTrimmed(r) && |r| <= |block|
  {
    var ms := PhoneMatches(block, 0);
    if ms == [] then []
    else
      var m := ms[FirstLongest(ms)];
      Trim(block[m.0..m.1])
  }

  lemma {:induction false} DigitBacktrackCorrect(s: string, q: nat, m: nat)
    requires m <= |s|
    requires forall k :: q < k < m ==> IsPhoneChar(s[k])
    ensures DigitBacktrack(s, q, m) == None ==>
      forall k :: q + 7 <= k <= m && k < |s| ==> !IsDigit(s[k])
    ensures DigitBacktrack(s, q, m).Some? ==>
      var e := DigitBacktrack(s, q, m).value;
      && IsDigit(s[e - 1])
      && (forall k :: q < k < e - 1 ==> IsPhoneChar(s[k]))
      && forall k :: e <= k <= m && k < |s| ==> !IsDigit(s[k])
    decreases m
  {
    if m >= q + 7 && !(m < |s| && IsDigit(s[m])) {
      DigitBacktrackCorrect(s, q, m - 1);
    }
  }

  /** The matcher at `b` answers the longest match starting at `b`, and the closing digit it
      picks is the last digit of the greedy run. */
  lemma PhoneAtCorrect(s: string, b: nat)
    requires b <= |s|
    ensures PhoneAt(s, b) == None ==> forall e: nat :: !PhoneShape(s, b, e)
    ensures PhoneAt(s, b).Some? ==>
      var e := PhoneAt(s, b).value;
      && PhoneShape(s, b, e)
      && (forall e': nat :: PhoneShape(s, b, e') ==> e' <= e)
      && forall k :: e <= k < Span(s, DigitStart(s, b) + 1, IsPhoneChar) ==> !IsDigit(s[k])
  {
    if b < |s| {
      var q := DigitStart(s, b);
      if q < |s| && IsDigit(s[q]) {
        var r := Span(s, q + 1, IsPhoneChar);
        DigitBacktrackCorrect(s, q, r);
        forall e': nat | PhoneShape(s, b, e')
          ensures e' - 1 < r && (PhoneAt(s, b).Some? ==> e' <= PhoneAt(s, b).value)
        {
        }
      }
    }
  }

  /** The leftmost search answers a match at its start. */
  lemma {:induction false} FirstPhoneFound(s: string, from: nat)
    requires from <= |s| && FirstPhone(s, from).Some?
    ensures from <= FirstPhone(s, from).value.0 <= |s|
    ensures PhoneAt(s, FirstPhone(s, from).value.0) == Some(FirstPhone(s, from).value.1)
    decreases |s| - from
  {
    var r := PhoneAt(s, from);
    if r.Some? {
      assert FirstPhone(s, from) == Some((from, r.value));
    } else {
      assert FirstPhone(s, from) == FirstPhone(s, from + 1);
      FirstPhoneFound(s, from + 1);
    }
  }

  /** The leftmost search finds a match at or before any start where a match exists. */
  lemma {:induction false} FirstPhoneLeftmost(s: string, from: nat, b: nat)
    requires from <= b <= |s| && PhoneAt(s, b).Some?
    ensures FirstPhone(s, from).Some? && FirstPhone(s, from).value.0 <= b
    decreases b - from
  {
    if PhoneAt(s, from).None? {
      FirstPhoneLeftmost(s, from + 1, b);
    }
  }

  /** The leftmost search: the match at the first start where there is one. */
  lemma FirstPhoneCorrect(s: string, from: nat)
    requires from <= |s|
    ensures FirstPhone(s, from) == None ==> forall b :: from <= b <= |s| ==> PhoneAt(s, b) == None
    ensures FirstPhone(s, from).Some? ==>
      && from <= FirstPhone(s, from).value.0 <= |s|
      && PhoneAt(s, FirstPhone(s, from).value.0) == Some(FirstPhone(s, from).value.1)
      && forall b' :: from <= b' < FirstPhone(s, from).value.0 ==> PhoneAt(s, b') == None
  {
    if FirstPhone(s, from).Some? {
      FirstPhoneFound(s, from);
    }
    forall b | from <= b <= |s| && PhoneAt(s, b).Some?
      ensures FirstPhone(s, from).Some? && FirstPhone(s, from).value.0 <= b
    {
      FirstPhoneLeftmost(s, from, b);
    }
  }

  /** A match that starts inside the match found at `b` ends no later than it. */
  lemma InsideMatchEndsBefore(s: string, b: nat, b': nat, e': nat)
    requires b <= |s| && PhoneAt(s, b).Some?
    requires b <= b' < PhoneAt(s, b).value
    requires PhoneShape(s, b', e')
    ensures e' <= PhoneAt(s, b).value
  {
    PhoneAtCorrect(s, b);
    var e := PhoneAt(s, b).value;
    if b' == b {
    } else {
      var q := DigitStart(s, b);
      var r := Span(s, q + 1, IsPhoneChar);
      assert e - 1 < r;
      assert q <= b';
      assert s[b'] != '+' by {
        if q < b' {
          assert IsPhoneChar(s[b']);
        }
      }
      assert DigitStart(s, b') == b';
      forall k | q < k < e' ensures IsPhoneChar(s[k]) {
        if k <= b' {
          assert k <= e - 1;
        }
      }
      assert IsDigit(s[e' - 1]);
    }
  }

  /** Each match of the global search is the longest match at its start. */
  lemma {:induction false} PhoneMatchesAreMatches(s: string, from: nat)
    requires from <= |s|
    ensures forall k :: 0 <= k < |PhoneMatches(s, from)| ==>
      PhoneAt(s, PhoneMatches(s, from)[k].0) == Some(PhoneMatches(s, from)[k].1)
    decreases |s| - from
  {
    FirstPhoneCorrect(s, from);
    if FirstPhone(s, from).Some? {
      var (b0, e0) := FirstPhone(s, from).value;
      PhoneAtCorrect(s, b0);
      PhoneMatchesAreMatches(s, e0);
      var ms := PhoneMatches(s, from);
      assert ms == [(b0, e0)] + PhoneMatches(s, e0);
    }
  }

  /** The matches come left to right without overlapping. */
  lemma {:induction false} PhoneMatchesOrdered(s: string, from: nat)
    requires from <= |s|
    ensures forall k :: 0 <= k < |PhoneMatches(s, from)| - 1 ==>
      PhoneMatches(s, from)[k].1 <= PhoneMatches(s, from)[k + 1].0
    decreases |s| - from
  {
    FirstPhoneCorrect(s, from);
    if FirstPhone(s, from).Some? {
      var (b0, e0) := FirstPhone(s, from).value;
      PhoneAtCorrect(s, b0);
      PhoneMatchesOrdered(s, e0);
      var ms := PhoneMatches(s, from);
      assert ms == [(b0, e0)] + PhoneMatches(s, e0);
    }
  }

  /** Every match the pattern admits at or after `from` starts inside a match of the global
      search: the search skips no match. */
  lemma {:induction false} PhoneMatchesCover(s: string, from: nat, b: nat, e: nat)
    requires from <= b && PhoneShape(s, b, e)
    ensures exists k ::
      0 <= k < |PhoneMatches(s, from)| && PhoneMatches(s, from)[k].0 <= b < PhoneMatches(s, from)[k].1
    decreases |s| - from
  {
    PhoneAtCorrect(s, b);
    FirstPhoneLeftmost(s, from, b);
    FirstPhoneFound(s, from);
    var b0, e0 := FirstPhone(s, from).value.0, FirstPhone(s, from).value.1;
    var ms := PhoneMatches(s, from);
    PhoneMatchesUnfold(s, from);
    if b < e0 {
      assert ms[0].0 <= b < ms[0].1;
    } else {
      PhoneMatchesCover(s, e0, b, e);
      var rest := PhoneMatches(s, e0);
      var k :| 0 <= k < |rest| && rest[k].0 <= b < rest[k].1;
      ShiftIndex(FirstPhone(s, from).value, rest, k);
    }
  }

  /** The global search: the leftmost match, then the search resumed at its end. */
  lemma PhoneMatchesUnfold(s: string, from: nat)
    requires from <= |s| && FirstPhone(s, from).Some?
    ensures PhoneMatches(s, from) == [FirstPhone(s, from).value] + PhoneMatches(s, FirstPhone(s, from).value.1)
  {
  }

  lemma ShiftIndex<T>(x: T, rest: seq<T>, k: nat)
    requires k < |rest|
    ensures ([x] + rest)[k + 1] == rest[k]
  {
  }

  /** The '+' or digit that opens a match and the digit that closes it are not white space,
      so the final `trim` leaves the match unchanged. */
  lemma TrimKeepsMatch(s: string, b: nat, e: nat)
    requires PhoneShape(s, b, e)
    ensures Trim(s[b..e]) == s[b..e]
  {
    var m := s[b..e];
    assert m[0] == s[b] && m[|m| - 1] == s[e - 1];
    TrimOfTrimmed(m);
  }

  /** A substring the pattern admits that starts inside the `k`-th match of the global search
      ends inside it too. */
  lemma MatchContainsShape(s: string, k: nat, b': nat, e': nat)
    requires k < |PhoneMatches(s, 0)|
    requires PhoneMatches(s, 0)[k].0 <= b' < PhoneMatches(s, 0)[k].1 && PhoneShape(s, b', e')
    ensures e' <= PhoneMatches(s, 0)[k].1
  {
    PhoneMatchesAreMatches(s, 0);
    InsideMatchEndsBefore(s, PhoneMatches(s, 0)[k].0, b', e');
  }

  /** In a left-to-right sequence of non-overlapping spans, a span lying inside the `k`-th one is
      shorter than the first longest span, or as long and starting no earlier. */
  lemma InsideSpanLosesToFirstLongest(ms: seq<(nat, nat)>, k: nat, b': nat, e': nat)
    requires |ms| > 0 && k < |ms|
    requires forall j :: 0 <= j < |ms| ==> ms[j].0 < ms[j].1
    requires forall j :: 0 <= j < |ms| - 1 ==> ms[j].1 <= ms[j + 1].0
    requires ms[k].0 <= b' && e' <= ms[k].1
    ensures var m := ms[FirstLongest(ms)];
      e' - b' < Length(m) || (e' - b' == Length(m) && m.0 <= b')
  {
    var i := FirstLongest(ms);
    if k > i {
      MatchesOrdered(ms, i, k);
    }
  }

  /** The match `extractPhone` picks is at least as long as any substring the pattern admits,
      and it starts no later than any equally long one. */
  lemma PickedBeatsEveryMatch(s: string, b': nat, e': nat)
    requires PhoneMatches(s, 0) != [] && PhoneShape(s, b', e')
    ensures var m := PhoneMatches(s, 0)[FirstLongest(PhoneMatches(s, 0))];
      e' - b' < Length(m) || (e' - b' == Length(m) && m.0 <= b')
  {
    var ms := PhoneMatches(s, 0);
    PhoneMatchesCover(s, 0, b', e');
    var k :| 0 <= k < |ms| && ms[k].0 <= b' < ms[k].1;
    MatchContainsShape(s, k, b', e');
    PhoneMatchesOrdered(s, 0);
    InsideSpanLosesToFirstLongest(ms, k, b', e');
  }

  /** What `extractPhone` returns: "" exactly when no substring of the block matches, and
      otherwise a matching substring that no other match is longer than, and the earliest
      starting among the longest ones. */
  lemma ExtractPhoneSpec(s: string)
    ensures ExtractPhone(s) == [] <==> forall b: nat, e: nat :: !PhoneShape(s, b, e)
    ensures ExtractPhone(s) != [] ==>
      exists b: nat, e: nat :: b <= e <= |s| && ExtractPhone(s) == s[b..e] && PhoneShape(s, b, e)
        && forall b': nat, e': nat :: PhoneShape(s, b', e') ==>
             e' - b' < e - b || (e' - b' == e - b && b <= b')
  {
    var ms := PhoneMatches(s, 0);
    if ms == [] {
      forall b: nat, e: nat | PhoneShape(s, b, e) ensures false {
        PhoneMatchesCover(s, 0, b, e);
      }
    } else {
      var b, e := PickedMatch(s);
      assert b <= e <= |s| && ExtractPhone(s) == s[b..e] && PhoneShape(s, b, e)
        && forall b': nat, e': nat :: PhoneShape(s, b', e') ==>
             e' - b' < e - b || (e' - b' == e - b && b <= b');
    }
  }

  /** The match `extractPhone` picks, its text returned as it stands, and no match beating it. */
  lemma PickedMatch(s: string) returns (b: nat, e: nat)
    requires PhoneMatches(s, 0) != []
    ensures b < e <= |s| && PhoneShape(s, b, e) && ExtractPhone(s) == s[b..e]
    ensures forall b': nat, e': nat :: PhoneShape(s, b', e') ==>
      e' - b' < e - b || (e' - b' == e - b && b <= b')
  {
    var ms := PhoneMatches(s, 0);
    PhoneMatchesAreMatches(s, 0);
    var i := FirstLongest(ms);
    b, e := ms[i].0, ms[i].1;
    assert PhoneAt(s, b) == Some(e);
    PhoneAtCorrect(s, b);
    TrimKeepsMatch(s, b, e);
    forall b': nat, e': nat | PhoneShape(s, b', e')
      ensures e' - b' < e - b || (e' - b' == e - b && b <= b')
    {
      PickedBeatsEveryMatch(s, b', e');
    }
  }

  lemma {:induction false} MatchesOrdered(ms: seq<(nat, nat)>, i: nat, k: nat)
    requires forall j :: 0 <= j < |ms| ==> ms[j].0 < ms[j].1
    requires forall j :: 0 <= j < |ms| - 1 ==> ms[j].1 <= ms[j + 1].0
    requires i < k < |ms|
    ensures ms[i].1 <= ms[k].0
    decreases k - i
  {
    if k > i + 1 {
      MatchesOrdered(ms, i + 1, k);
    }
  }
}
