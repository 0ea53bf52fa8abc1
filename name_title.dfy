/** `extractNameAndTitle` (app/page.tsx:40-68): the name and the job title read off the first
    line of a block, by the first of three rules that applies. */
module NameTitle {
  import opened Text
  import opened Options

  datatype NameTitle = NameTitle(name: string, title: string)

  /** The middle dot `·` (U+00B7) of the second rule. */
  const MiddleDot: char := '\U{00B7}'

  /** No character from `i` on is one the atom `.` refuses. */
  predicate NoLineTerminatorFrom(s: string, i: nat) {
    forall k :: i <= k < |s| ==> !IsLineTerminator(s[k])
  }

  /** No character before `i` is one the atom `.` refuses. */
  predicate NoLineTerminatorBefore(s: string, i: nat) {
    forall k :: 0 <= k < i && k < |s| ==> !IsLineTerminator(s[k])
  }

  /** The whole of `s` matches `^(.+?)\s*-\s*(.+)$` with the first group `s[..k]`, the hyphen at
      `h` and the second group `s[t..]`. */
  predicate DashShape(s: string, k: nat, h: nat, t: nat) {
    && 1 <= k <= h < t < |s|
    && NoLineTerminatorBefore(s, k)
    && (forall j :: k <= j < h ==> IsSpace(s[j]))
    && s[h] == '-'
    && (forall j :: h < j < t ==> IsSpace(s[j]))
    && NoLineTerminatorFrom(s, t)
  }

  /** Backtracking of the second, greedy `\s*`: the group `(.+)$` is tried from `t`, for `t`
      going down from the end of the white-space run to just past the hyphen. */
  function TailBacktrack(s: string, lo: nat, t: nat): (r: Option<nat>)
    requires lo <= t <= |s|
    ensures r.Some? ==> lo <= r.value <= t && r.value < |s|
    decreases t
  {
    if t < |s| && NoLineTerminatorFrom(s, t) then Some(t)
    else if t == lo then None
    else TailBacktrack(s, lo, t - 1)
  }

  /** The rest of the pattern after a first group `s[..k]`: the first `\s*` takes the whole
      white-space run (giving some of it back cannot put a hyphen in front), then '-'. Answers
      where the second group starts. */
  function DashAt(s: string, k: nat): (r: Option<nat>)
    requires k <= |s|
    ensures r.Some? ==> k < r.value < |s|
  {
    var h := Span(s, k, IsSpace);
    if h < |s| && s[h] == '-' then TailBacktrack(s, h + 1, Span(s, h + 1, IsSpace)) else None
  }

  /** The lazy `(.+?)`: the first group is tried with 1, 2, ... characters, as long as it can
      still grow over a character `.` accepts. */
  function DashFrom(s: string, k: nat): (r: Option<(nat, nat)>)
    requires 1 <= k <= |s|
    ensures r.Some? ==> k <= r.value.0 < r.value.1 < |s|
    decreases |s| - k
  {
    if IsLineTerminator(s[k - 1]) then None
    else
      match DashAt(s, k)
      case Some(t) => Some((k, t))
      case None => if k == |s| then None else DashFrom(s, k + 1)
  }

  /** `firstLine.match(/^(.+?)\s*-\s*(.+)$/)`: the ends of the two groups, if the line matches. */
  function DashMatch(s: string): (r: Option<(nat, nat)>)
    ensures r.Some? ==> 1 <= r.value.0 < r.value.1 < |s|
  {
    if s == [] then None else DashFrom(s, 1)
  }

  /** `extractNameAndTitle`. */
  function ExtractNameAndTitle(firstLine: string): (r: NameTitle)
    ensures IsTrimmed(r.name) && IsTrimmed(r.title)
  {
    match DashMatch(firstLine)
    case Some((k, t)) => NameTitle(Trim(firstLine[..k]), Trim(firstLine[t..]))
    case None =>
      var dotParts := Split(firstLine, MiddleDot);
      if |dotParts| >= 2 then
        NameTitle(Trim(dotParts[0]), Trim(Join(dotParts[1..], MiddleDot)))
      else
        NameTitle(Trim(firstLine), [])
  }

  lemma {:induction false} TailBacktrackCorrect(s: string, lo: nat, t: nat)
    requires lo <= t <= |s|
    ensures TailBacktrack(s, lo, t) == None ==>
      forall t' :: lo <= t' <= t ==> !(t' < |s| && NoLineTerminatorFrom(s, t'))
    ensures TailBacktrack(s, lo, t).Some? ==>
      var r := TailBacktrack(s, lo, t).value;
      && NoLineTerminatorFrom(s, r)
      && forall t' :: r < t' <= t ==> !(t' < |s| && NoLineTerminatorFrom(s, t'))
    decreases t
  {
    if !(t < |s| && NoLineTerminatorFrom(s, t)) && t > lo {
      TailBacktrackCorrect(s, lo, t - 1);
    }
  }

  /** The rest of the pattern matches after `s[..k]` exactly when the matcher says so, and the
      matcher picks the longest white-space run before the second group. */
  lemma DashAtCorrect(s: string, k: nat)
    requires 1 <= k <= |s| && NoLineTerminatorBefore(s, k)
    ensures DashAt(s, k) == None ==> forall h: nat, t: nat :: !DashShape(s, k, h, t)
    ensures DashAt(s, k).Some? ==>
      && (exists h: nat :: DashShape(s, k, h, DashAt(s, k).value))
      && forall h: nat, t: nat :: DashShape(s, k, h, t) ==> t <= DashAt(s, k).value
  {
    var h := Span(s, k, IsSpace);
    forall h': nat, t': nat | DashShape(s, k, h', t')
      ensures h' == h && t' <= Span(s, h + 1, IsSpace)
    {
    }
    if h < |s| && s[h] == '-' {
      var m := Span(s, h + 1, IsSpace);
      TailBacktrackCorrect(s, h + 1, m);
      if DashAt(s, k).Some? {
        assert DashShape(s, k, h, DashAt(s, k).value);
      }
    }
  }

  lemma {:induction false} DashFromCorrect(s: string, k: nat)
    requires 1 <= k <= |s| && NoLineTerminatorBefore(s, k - 1)
    ensures DashFrom(s, k) == None ==> forall k': nat, h: nat, t: nat :: k <= k' ==> !DashShape(s, k', h, t)
    ensures DashFrom(s, k).Some? ==>
      var (k0, t0) := DashFrom(s, k).value;
      && NoLineTerminatorBefore(s, k0)
      && DashAt(s, k0) == Some(t0)
      && forall k': nat, h: nat, t: nat :: k <= k' < k0 ==> !DashShape(s, k', h, t)
    decreases |s| - k
  {
    if IsLineTerminator(s[k - 1]) {
      forall k': nat, h: nat, t: nat | k <= k' && DashShape(s, k', h, t) ensures false {
      }
    } else {
      assert NoLineTerminatorBefore(s, k);
      DashAtCorrect(s, k);
      if DashAt(s, k).None? && k < |s| {
        DashFromCorrect(s, k + 1);
        forall k': nat, h: nat, t: nat | k <= k' && DashShape(s, k', h, t) && k' == k
          ensures false
        {
        }
      } else if DashAt(s, k).None? {
        forall k': nat, h: nat, t: nat | k <= k' && DashShape(s, k', h, t)
          ensures false
        {
        }
      }
    }
  }

  /** The dash pattern matches exactly when the line has the shape, and then the matcher picks
      the shortest first group and, for it, the longest white-space run before the second. */
  lemma DashMatchCorrect(s: string)
    ensures DashMatch(s) == None ==> forall k: nat, h: nat, t: nat :: !DashShape(s, k, h, t)
    ensures DashMatch(s).Some? ==>
      var (k, t) := DashMatch(s).value;
      && (exists h: nat :: DashShape(s, k, h, t))
      && forall k': nat, h': nat, t': nat :: DashShape(s, k', h', t') ==> k <= k' && (k' == k ==> t' <= t)
  {
    if s != [] {
      DashFromCorrect(s, 1);
      if DashMatch(s).Some? {
        var (k, t) := DashMatch(s).value;
        DashAtCorrect(s, k);
      }
    }
  }

  /** White space between a text and a cut point does not change what `trim` gives. */
  lemma TrimPrefixUpToSpaces(s: string, k: nat, h: nat)
    requires k <= h <= |s| && forall j :: k <= j < h ==> IsSpace(s[j])
    ensures Trim(s[..k]) == Trim(s[..h])
  {
    SliceParts(s, 0, k, h);
    assert s[0..h] == s[..h] && s[0..k] == s[..k];
    assert AllSpace(s[k..h]);
    TrimSpacesAfter(s[..k], s[k..h]);
  }

  /** White space between a cut point and the rest of a text does not change what `trim` gives. */
  lemma TrimSuffixFromSpaces(s: string, h: nat, t: nat)
    requires h <= t <= |s| && forall j :: h <= j < t ==> IsSpace(s[j])
    ensures Trim(s[t..]) == Trim(s[h..])
  {
    SliceParts(s, h, t, |s|);
    assert s[h..|s|] == s[h..] && s[t..|s|] == s[t..];
    assert AllSpace(s[h..t]);
    TrimSpacesBefore(s[h..t], s[t..]);
  }

  /** On a line without line terminators the dash pattern amounts to: split at the first hyphen
      that has at least one character before it and one after it. */
  lemma DashIsFirstHyphen(s: string, h: nat)
    requires NoLineTerminatorFrom(s, 0)
    requires 1 <= h < |s| - 1 && s[h] == '-'
    requires forall j :: 1 <= j < h ==> s[j] != '-'
    ensures DashMatch(s).Some?
    ensures Trim(s[..DashMatch(s).value.0]) == Trim(s[..h])
    ensures Trim(s[DashMatch(s).value.1..]) == Trim(s[h + 1..])
  {
    DashMatchCorrect(s);
    assert DashShape(s, h, h, h + 1);
    var m := DashMatch(s).value;
    assert m.0 <= h;
    var hh: nat :| DashShape(s, m.0, hh, m.1);
    TrimsAtHyphen(s, m.0, hh, m.1, h);
  }

  lemma TrimsAtHyphen(s: string, k: nat, hh: nat, t: nat, h: nat)
    requires DashShape(s, k, hh, t) && k <= h < |s| && s[h] == '-'
    requires forall j :: 1 <= j < h ==> s[j] != '-'
    ensures Trim(s[..k]) == Trim(s[..h]) && Trim(s[t..]) == Trim(s[h + 1..])
  {
    HyphenOfShape(s, k, hh, t, h);
    TrimPrefixUpToSpaces(s, k, h);
    TrimSuffixFromSpaces(s, h + 1, t);
  }

  /** A shape whose first group ends at or before the first hyphen has its hyphen there. */
  lemma HyphenOfShape(s: string, k: nat, hh: nat, t: nat, h: nat)
    requires DashShape(s, k, hh, t) && k <= h < |s| && s[h] == '-'
    requires forall j :: 1 <= j < h ==> s[j] != '-'
    ensures hh == h
    ensures forall j :: k <= j < h ==> IsSpace(s[j])
    ensures forall j :: h + 1 <= j < t ==> IsSpace(s[j])
  {
    var atH, atHh := s[h], s[hh];
    assert h < hh ==> IsSpace(atH);
    assert hh < h ==> atHh != '-';
  }

  /** On a line without line terminators and without such a hyphen the dash pattern fails. */
  lemma NoHyphenNoDash(s: string)
    requires NoLineTerminatorFrom(s, 0)
    requires forall j :: 1 <= j < |s| - 1 ==> s[j] != '-'
    ensures DashMatch(s) == None
  {
    DashMatchCorrect(s);
  }

  /** The three rules and their order, for a line without line terminators (the first line of
      a block never holds a '\n', and holds another terminator only in unusual input):
      1. a hyphen at index 1 or later with a character after it: split at the first such one;
      2. otherwise a middle dot: split at the first one, later dots stay in the title;
      3. otherwise the whole line is the name and the title is empty. */
  lemma NameAndTitlePrecedence(line: string)
    requires NoLineTerminatorFrom(line, 0)
    ensures forall h ::
      (1 <= h < |line| - 1 && line[h] == '-' && (forall j :: 1 <= j < h ==> line[j] != '-')) ==>
      ExtractNameAndTitle(line) == NameTitle(Trim(line[..h]), Trim(line[h + 1..]))
    ensures (forall j :: 1 <= j < |line| - 1 ==> line[j] != '-') && MiddleDot in line ==>
      var i := IndexOf(line, MiddleDot);
      ExtractNameAndTitle(line) == NameTitle(Trim(line[..i]), Trim(line[i + 1..]))
    ensures (forall j :: 1 <= j < |line| - 1 ==> line[j] != '-') && MiddleDot !in line ==>
      ExtractNameAndTitle(line) == NameTitle(Trim(line), [])
  {
    DashRule(line);
    if forall j :: 1 <= j < |line| - 1 ==> line[j] != '-' {
      if MiddleDot in line {
        MiddleDotRule(line);
      } else {
        FallbackRule(line);
      }
    }
  }

  /** The first rule: split at the first hyphen with a character on each side. */
  lemma DashRule(line: string)
    requires NoLineTerminatorFrom(line, 0)
    ensures forall h ::
      (1 <= h < |line| - 1 && line[h] == '-' && (forall j :: 1 <= j < h ==> line[j] != '-')) ==>
      ExtractNameAndTitle(line) == NameTitle(Trim(line[..h]), Trim(line[h + 1..]))
  {
    forall h | 1 <= h < |line| - 1 && line[h] == '-' && (forall j :: 1 <= j < h ==> line[j] != '-')
      ensures ExtractNameAndTitle(line) == NameTitle(Trim(line[..h]), Trim(line[h + 1..]))
    {
      DashIsFirstHyphen(line, h);
    }
  }

  /** The second rule: without such a hyphen, split at the first middle dot and keep the later
      ones in the title. */
  lemma MiddleDotRule(line: string)
    requires NoLineTerminatorFrom(line, 0)
    requires (forall j :: 1 <= j < |line| - 1 ==> line[j] != '-') && MiddleDot in line
    ensures var i := IndexOf(line, MiddleDot);
      ExtractNameAndTitle(line) == NameTitle(Trim(line[..i]), Trim(line[i + 1..]))
  {
    NoHyphenNoDash(line);
    SplitTailJoin(line, MiddleDot);
    SplitHead(line, MiddleDot);
  }

  /** The third rule: with neither, the whole line is the name and the title is empty. */
  lemma FallbackRule(line: string)
    requires NoLineTerminatorFrom(line, 0)
    requires (forall j :: 1 <= j < |line| - 1 ==> line[j] != '-') && MiddleDot !in line
    ensures ExtractNameAndTitle(line) == NameTitle(Trim(line), [])
  {
    NoHyphenNoDash(line);
    SplitCount(line, MiddleDot);
  }

  /** The pieces around a three-character infix. */
  lemma InfixParts(n: string, d: char, t: string)
    ensures var line := n + [' ', d, ' '] + t;
      && |line| == |n| + 3 + |t| && line[|n| + 1] == d
      && line[..|n| + 1] == n + [' '] && line[|n| + 2..] == [' '] + t
      && (forall k :: 0 <= k < |n| ==> line[k] == n[k])
      && (forall k :: 0 <= k < |t| ==> line[|n| + 3 + k] == t[k])
  {
  }

  /** The "Name - Title" form: a name and a title, neither holding a hyphen, around " - ". */
  lemma DashForm(n: string, t: string)
    requires n != [] && IsTrimmed(n) && '-' !in n && NoLineTerminatorFrom(n, 0)
    requires t != [] && IsTrimmed(t) && NoLineTerminatorFrom(t, 0)
    ensures ExtractNameAndTitle(n + [' ', '-', ' '] + t) == NameTitle(n, t)
  {
    DashFormSplit(n, t);
    TrimSpacesAfter(n, [' ']);
    TrimOfTrimmed(n);
    TrimSpacesBefore([' '], t);
    TrimOfTrimmed(t);
  }

  lemma DashFormSplit(n: string, t: string)
    requires n != [] && '-' !in n && NoLineTerminatorFrom(n, 0)
    requires t != [] && NoLineTerminatorFrom(t, 0)
    ensures ExtractNameAndTitle(n + [' ', '-', ' '] + t) == NameTitle(Trim(n + [' ']), Trim([' '] + t))
  {
    var line := n + [' ', '-', ' '] + t;
    InfixParts(n, '-', t);
    forall k | 0 <= k < |line| ensures !IsLineTerminator(line[k]) && (k < |n| + 1 ==> line[k] != '-') {
      if k < |n| {
        assert line[k] == n[k];
      } else if k >= |n| + 3 {
        assert line[k] == t[k - |n| - 3];
      }
    }
    DashIsFirstHyphen(line, |n| + 1);
  }

  /** The "Name · Title · Company" form: a name around " · " with the rest, no hyphen in
      either. The name is the text before the first middle dot, and the title all of the rest,
      later middle dots included. */
  lemma MiddleDotForm(n: string, t: string)
    requires MiddleDot !in n && '-' !in n && '-' !in t
    requires NoLineTerminatorFrom(n, 0) && NoLineTerminatorFrom(t, 0)
    ensures ExtractNameAndTitle(n + [' ', MiddleDot, ' '] + t) == NameTitle(Trim(n), Trim(t))
  {
    var line := n + [' ', MiddleDot, ' '] + t;
    InfixParts(n, MiddleDot, t);
    forall k | 0 <= k < |line| ensures !IsLineTerminator(line[k]) && line[k] != '-' && (k <= |n| ==> line[k] != MiddleDot) {
      if k < |n| {
        assert line[k] == n[k];
      } else if k >= |n| + 3 {
        assert line[k] == t[k - |n| - 3];
      }
    }
    NoHyphenNoDash(line);
    FirstMiddleDot(line, |n| + 1);
    SplitTailJoin(line, MiddleDot);
    SplitHead(line, MiddleDot);
    TrimSpacesAfter(n, [' ']);
    TrimSpacesBefore([' '], t);
  }

  /** The first middle dot of a line. */
  lemma FirstMiddleDot(line: string, i: nat)
    requires i < |line| && line[i] == MiddleDot && forall k :: 0 <= k < i ==> line[k] != MiddleDot
    ensures MiddleDot in line && IndexOf(line, MiddleDot) == i
  {
  }
}
