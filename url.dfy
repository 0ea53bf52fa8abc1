/** `extractUrl` (app/page.tsx:33-38): the first match of `/(https?:\/\/[^\s]+)/i` in a block,
    or "". */
module Url {
  import opened Text
  import opened Options

  /** ASCII lower case: what the `i` flag without `u` identifies. */
  function ToLower(c: char): char {
    if 'A' <= c <= 'Z' then (c as int + 32) as char else c
  }

  /** `w` (written in lower case) stands at `b`, letters compared without regard to case. */
  predicate LiteralAt(s: string, b: nat, w: string) {
    b + |w| <= |s| && forall k :: 0 <= k < |w| ==> ToLower(s[b + k]) == w[k]
  }

  /** `s[b..e]` matches the pattern: "http://" or "https://" in any case, then one or more
      characters none of which is white space. */
  predicate UrlShape(s: string, b: nat, e: nat) {
    UrlShapeWith(s, b, e, "http://") || UrlShapeWith(s, b, e, "https://")
  }

  /** `s[b..e]` is the scheme prefix `w` followed by one or more non-white-space characters. */
  predicate UrlShapeWith(s: string, b: nat, e: nat, w: string) {
    && LiteralAt(s, b, w)
    && b + |w| < e <= |s|
    && forall k :: b + |w| <= k < e ==> !IsSpace(s[k])
  }

  predicate IsNotSpace(c: char) {
    !IsSpace(c)
  }

  /** Where the part after "://" starts when the scheme matches at `b`. The optional `s` is
      first taken when present; leaving it out cannot help, since ':' would then face it. */
  function SchemeEnd(s: string, b: nat): (r: Option<nat>)
    ensures r.Some? ==> r.value <= |s|
  {
    if !LiteralAt(s, b, "http") then None
    else
      var h := if b + 4 < |s| && ToLower(s[b + 4]) == 's' then b + 5 else b + 4;
      if LiteralAt(s, h, "://") then Some(h + 3) else None
  }

  /** The end of the match starting at `b`: the greedy `[^\s]+` runs to the next white space. */
  function UrlAt(s: string, b: nat): (r: Option<nat>)
    ensures r.Some? ==> b < r.value <= |s|
  {
    match SchemeEnd(s, b)
    case None => None
    case Some(c) =>
      var e := Span(s, c, IsNotSpace);
      if e > c then Some(e) else None
  }

  /** The leftmost match starting at or after `b`. */
  function FirstUrl(s: string, b: nat): (r: Option<(nat, nat)>)
    requires b <= |s|
    ensures r.Some? ==> b <= r.value.0 < r.value.1 <= |s|
    decreases |s| - b
  {
    match UrlAt(s, b)
    case Some(e) => Some((b, e))
    case None => if b == |s| then None else FirstUrl(s, b + 1)
  }

  /** `extractUrl`: `match[0]` of the first match, or "". */
  function ExtractUrl(block: string): (r: string)
    ensures |r| <= |block|
  {
    match FirstUrl(block, 0)
    case Some((b, e)) => block[b..e]
    case None => []
  }

  lemma LiteralAtAppend(s: string, b: nat, u: string, v: string)
    ensures LiteralAt(s, b, u + v) <==> LiteralAt(s, b, u) && LiteralAt(s, b + |u|, v)
  {
    if LiteralAt(s, b, u) && LiteralAt(s, b + |u|, v) {
      forall k | 0 <= k < |u + v| ensures ToLower(s[b + k]) == (u + v)[k] {
        if k >= |u| {
          assert ToLower(s[b + |u| + (k - |u|)]) == v[k - |u|];
        }
      }
    }
    if LiteralAt(s, b, u + v) {
      forall k | 0 <= k < |u| ensures ToLower(s[b + k]) == u[k] {
        assert ToLower(s[b + k]) == (u + v)[k];
      }
      forall k | 0 <= k < |v| ensures ToLower(s[b + |u| + k]) == v[k] {
        assert ToLower(s[b + (|u| + k)]) == (u + v)[|u| + k];
      }
    }
  }

  /** None of the characters of a scheme matched at `b` is white space. */
  lemma LiteralNotSpace(s: string, b: nat, w: string)
    requires LiteralAt(s, b, w) && forall k :: 0 <= k < |w| ==> !IsSpace(w[k])
    ensures forall k :: b <= k < b + |w| ==> !IsSpace(s[k])
  {
    forall k | b <= k < b + |w| ensures !IsSpace(s[k]) {
      assert ToLower(s[b + (k - b)]) == w[k - b];
    }
  }

  /** The scheme matcher finds every scheme the pattern admits. */
  lemma SchemeEndComplete(s: string, b: nat, w: string)
    requires w == "http://" || w == "https://"
    requires LiteralAt(s, b, w)
    ensures SchemeEnd(s, b) == Some(b + |w|)
  {
    assert "http://" == "http" + "://";
    assert "https://" == "https" + "://" && "https" == "http" + "s";
    if w == "http://" {
      LiteralAtAppend(s, b, "http", "://");
      assert ToLower(s[b + 4 + 0]) == "://"[0];
    } else {
      LiteralAtAppend(s, b, "https", "://");
      LiteralAtAppend(s, b, "http", "s");
      assert ToLower(s[b + 4 + 0]) == "s"[0];
    }
  }

  /** What the scheme matcher finds is "http://" or "https://". */
  lemma SchemeEndSound(s: string, b: nat)
    requires SchemeEnd(s, b).Some?
    ensures var c := SchemeEnd(s, b).value;
      (c == b + 7 && LiteralAt(s, b, "http://")) || (c == b + 8 && LiteralAt(s, b, "https://"))
  {
    var c := SchemeEnd(s, b).value;
    assert "http://" == "http" + "://";
    assert "https://" == "https" + "://" && "https" == "http" + "s";
    if c == b + 8 {
      assert LiteralAt(s, b + 4, "s") by {
        assert ToLower(s[b + 4 + 0]) == "s"[0];
      }
      LiteralAtAppend(s, b, "http", "s");
      LiteralAtAppend(s, b, "https", "://");
    } else {
      LiteralAtAppend(s, b, "http", "://");
    }
  }

  /** The matcher at `b` answers a match exactly when there is one, and it is the longest:
      it ends where white space or the block does. */
  lemma UrlAtCorrect(s: string, b: nat)
    ensures UrlAt(s, b) == None ==> forall e: nat :: !UrlShape(s, b, e)
    ensures UrlAt(s, b).Some? ==>
      var e := UrlAt(s, b).value;
      && UrlShape(s, b, e)
      && (e == |s| || IsSpace(s[e]))
      && forall k :: b <= k < e ==> !IsSpace(s[k])
  {
    forall e: nat | UrlShape(s, b, e)
      ensures UrlAt(s, b).Some?
    {
      UrlAtComplete(s, b, e);
    }
    if UrlAt(s, b).Some? {
      UrlAtSound(s, b);
    }
  }

  lemma UrlAtComplete(s: string, b: nat, e: nat)
    requires UrlShape(s, b, e)
    ensures UrlAt(s, b).Some?
  {
    var w := if UrlShapeWith(s, b, e, "http://") then "http://" else "https://";
    SchemeEndComplete(s, b, w);
  }

  lemma UrlAtSound(s: string, b: nat)
    requires UrlAt(s, b).Some?
    ensures var e := UrlAt(s, b).value;
      && UrlShape(s, b, e)
      && (e == |s| || IsSpace(s[e]))
      && forall k :: b <= k < e ==> !IsSpace(s[k])
  {
    SchemeEndSound(s, b);
    var c := SchemeEnd(s, b).value;
    var w := if c == b + 8 then "https://" else "http://";
    LiteralNotSpace(s, b, w);
  }

  /** The leftmost search answers a match at its start. */
  lemma {:induction false} FirstUrlFound(s: string, b: nat)
    requires b <= |s| && FirstUrl(s, b).Some?
    ensures b <= FirstUrl(s, b).value.0 && UrlAt(s, FirstUrl(s, b).value.0) == Some(FirstUrl(s, b).value.1)
    decreases |s| - b
  {
    var r := UrlAt(s, b);
    if r.Some? {
      assert FirstUrl(s, b) == Some((b, r.value));
    } else {
      assert FirstUrl(s, b) == FirstUrl(s, b + 1);
      FirstUrlFound(s, b + 1);
    }
  }

  /** The leftmost search finds a match at or before any start where a match exists. */
  lemma {:induction false} FirstUrlLeftmost(s: string, b: nat, b': nat)
    requires b <= b' <= |s| && UrlAt(s, b').Some?
    ensures FirstUrl(s, b).Some? && FirstUrl(s, b).value.0 <= b'
    decreases b' - b
  {
    if UrlAt(s, b).None? {
      FirstUrlLeftmost(s, b + 1, b');
    }
  }

  /** The leftmost search: the match at the first start where there is one. */
  lemma FirstUrlCorrect(s: string, b: nat)
    requires b <= |s|
    ensures FirstUrl(s, b) == None ==> forall b' :: b <= b' <= |s| ==> UrlAt(s, b') == None
    ensures FirstUrl(s, b).Some? ==>
      && UrlAt(s, FirstUrl(s, b).value.0) == Some(FirstUrl(s, b).value.1)
      && forall b' :: b <= b' < FirstUrl(s, b).value.0 ==> UrlAt(s, b') == None
  {
    if FirstUrl(s, b).Some? {
      FirstUrlFound(s, b);
    }
    forall b' | b <= b' <= |s| && UrlAt(s, b').Some?
      ensures FirstUrl(s, b).Some? && FirstUrl(s, b).value.0 <= b'
    {
      FirstUrlLeftmost(s, b, b');
    }
  }

  /** What `extractUrl` returns: "" exactly when the block holds no match; otherwise the match
      that starts leftmost, containing no white space and running up to the next white space
      or the end of the block. */
  lemma ExtractUrlSpec(s: string)
    ensures ExtractUrl(s) == [] <==> forall b: nat, e: nat :: !UrlShape(s, b, e)
    ensures ExtractUrl(s) != [] ==>
      exists b: nat, e: nat :: b < e <= |s| && ExtractUrl(s) == s[b..e]
        && UrlShape(s, b, e)
        && (forall b': nat, e': nat :: UrlShape(s, b', e') ==> b <= b')
        && (forall k :: b <= k < e ==> !IsSpace(s[k]))
        && (e == |s| || IsSpace(s[e]))
  {
    FirstUrlCorrect(s, 0);
    match FirstUrl(s, 0)
    case None =>
      forall b: nat, e: nat | UrlShape(s, b, e) ensures false {
        UrlAtCorrect(s, b);
      }
    case Some((b, e)) =>
      UrlAtCorrect(s, b);
      forall b': nat, e': nat | UrlShape(s, b', e') ensures b <= b' {
        UrlAtCorrect(s, b');
      }
      assert ExtractUrl(s) == s[b..e];
  }
}
