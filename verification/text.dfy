/** The string helpers the request handlers rely on: Python's `x or ''` for a
    JSON field, `str.strip()`, and the 120-character excerpt of an article. */
module Text {
  import opened Common

  /** Python's `str.isspace()` for one character: the ASCII whitespace and
      separator controls plus the Unicode space and line/paragraph separators. */
  predicate IsSpace(c: char) {
    || c == ' ' || c == '\t' || c == '\n' || c == '\r'
    || c == '\U{000B}' || c == '\U{000C}'
    || ('\U{001C}' <= c <= '\U{001F}')
    || c == '\U{0085}' || c == '\U{00A0}' || c == '\U{1680}'
    || ('\U{2000}' <= c <= '\U{200A}')
    || c == '\U{2028}' || c == '\U{2029}' || c == '\U{202F}' || c == '\U{205F}'
    || c == '\U{3000}'
  }

  ghost predicate AllSpace(w: string) {
    forall i :: 0 <= i < |w| ==> IsSpace(w[i])
  }

  /** A string `strip()` leaves alone: empty, or neither end is whitespace. */
  ghost predicate Trimmed(t: string) {
    t == [] || (!IsSpace(t[0]) && !IsSpace(t[|t| - 1]))
  }

  /** `data.get(k) or ''`: a missing (or null) field reads as the empty string. */
  function OrEmpty(field: Option<string>): string {
    match field
    case None => []
    case Some(v) => v
  }

  /** Index of the first non-whitespace character at or after `i`. */
  function SkipSpaces(s: string, i: nat): (k: nat)
    requires i <= |s|
    ensures i <= k <= |s|
    ensures forall j :: i <= j < k ==> IsSpace(s[j])
    ensures k == |s| || !IsSpace(s[k])
    decreases |s| - i
  {
    if i < |s| && IsSpace(s[i]) then SkipSpaces(s, i + 1) else i
  }

  /** Index just past the last non-whitespace character before `k`, not going
      below `lo`. */
  function BackSpaces(s: string, lo: nat, k: nat): (e: nat)
    requires lo <= k <= |s|
    ensures lo <= e <= k
    ensures forall j :: e <= j < k ==> IsSpace(s[j])
    ensures e == lo || !IsSpace(s[e - 1])
    decreases k
  {
    if k > lo && IsSpace(s[k - 1]) then BackSpaces(s, lo, k - 1) else k
  }

  /** Python's `str.strip()`: the text between the leading and the trailing
      whitespace. */
  function Strip(s: string): (r: string)
    ensures Trimmed(r)
    ensures r == [] <==> AllSpace(s)
  {
    var b := SkipSpaces(s, 0);
    var e := BackSpaces(s, b, |s|);
    s[b..e]
  }

  lemma {:induction false} SkipSpacesStops(s: string, i: nat, k: nat)
    requires i <= k <= |s|
    requires forall j :: i <= j < k ==> IsSpace(s[j])
    requires k == |s| || !IsSpace(s[k])
    ensures SkipSpaces(s, i) == k
    decreases k - i
  {
    if i < k {
      SkipSpacesStops(s, i + 1, k);
    }
  }

  lemma {:induction false} BackSpacesStops(s: string, lo: nat, e: nat, k: nat)
    requires lo <= e <= k <= |s|
    requires forall j :: e <= j < k ==> IsSpace(s[j])
    requires e == lo || !IsSpace(s[e - 1])
    ensures BackSpaces(s, lo, k) == e
    decreases k
  {
    if e < k {
      BackSpacesStops(s, lo, e, k - 1);
    }
  }

  /** Cutting `s` at `b` and `e` leaves all-whitespace pieces on both sides
      when the characters outside `[b, e)` are whitespace. */
  lemma PaddingPieces(s: string, b: nat, e: nat)
    requires b <= e <= |s|
    requires forall j :: 0 <= j < b ==> IsSpace(s[j])
    requires forall j :: e <= j < |s| ==> IsSpace(s[j])
    ensures AllSpace(s[..b]) && AllSpace(s[e..])
    ensures s == s[..b] + s[b..e] + s[e..]
  {
    assert forall j :: 0 <= j < b ==> s[..b][j] == s[j];
    assert forall j :: 0 <= j < |s| - e ==> s[e..][j] == s[e + j];
    assert s[b..] == s[b..e] + s[e..];
    assert s == s[..b] + s[b..];
  }

  /** Every string is its stripped text with whitespace on both sides: `strip()`
      removes nothing but padding. */
  lemma StripSplits(s: string)
    ensures exists pre, post :: AllSpace(pre) && AllSpace(post) && s == pre + Strip(s) + post
  {
    var b := SkipSpaces(s, 0);
    var e := BackSpaces(s, b, |s|);
    PaddingPieces(s, b, e);
    assert AllSpace(s[..b]) && AllSpace(s[e..]) && s == s[..b] + Strip(s) + s[e..];
  }

  /** `strip()` removes exactly the whitespace padding around a trimmed core:
      together with `Strip`'s own contract this pins `Strip` down completely. */
  lemma StripPadded(pre: string, t: string, post: string)
    requires AllSpace(pre) && AllSpace(post) && Trimmed(t)
    ensures Strip(pre + t + post) == t
  {
    var s := pre + t + post;
    if t == [] {
      assert AllSpace(s) by {
        forall i | 0 <= i < |s| ensures IsSpace(s[i]) {
          if i < |pre| { assert s[i] == pre[i]; } else { assert s[i] == post[i - |pre|]; }
        }
      }
    } else {
      var b, e := |pre|, |pre| + |t|;
      assert forall j :: 0 <= j < b ==> s[j] == pre[j];
      assert forall j :: e <= j < |s| ==> s[j] == post[j - e];
      assert s[b] == t[0] && s[e - 1] == t[|t| - 1];
      SkipSpacesStops(s, 0, b);
      BackSpacesStops(s, b, e, |s|);
      assert s[b..e] == t;
    }
  }

  /** A string without surrounding whitespace is left as it is. */
  lemma StripTrimmed(t: string)
    requires Trimmed(t)
    ensures Strip(t) == t
  {
    assert [] + t + [] == t;
    StripPadded([], t, []);
  }

  /** Stripping twice is stripping once. */
  lemma StripIdempotent(s: string)
    ensures Strip(Strip(s)) == Strip(s)
  {
    StripTrimmed(Strip(s));
  }

  /** Length of an article excerpt before the ellipsis is added. */
  const ExcerptLimit: nat := 120

  /** `brief`'s excerpt: the body itself when it has at most 120 characters,
      otherwise its first 120 characters followed by "...". */
  function Excerpt(text: string): (r: string)
    ensures |r| <= ExcerptLimit + 3
    ensures |text| <= ExcerptLimit ==> r == text
    ensures |text| > ExcerptLimit ==> |r| == ExcerptLimit + 3 && r[ExcerptLimit..] == "..."
    ensures var n := if |text| < ExcerptLimit then |text| else ExcerptLimit;
            n <= |r| && r[..n] == text[..n]
  {
    if |text| > ExcerptLimit then text[..ExcerptLimit] + "..." else text
  }

  /** Beyond the limit, the excerpt depends on the first 120 characters
      only. */
  lemma ExcerptDependsOnHead(a: string, b: string)
    requires |a| > ExcerptLimit && |b| > ExcerptLimit && a[..ExcerptLimit] == b[..ExcerptLimit]
    ensures Excerpt(a) == Excerpt(b)
  {
  }

  /** An excerpt does not reveal whether it was truncated: a 123-character body
      that ends in "..." is its own excerpt, exactly like a short body. */
  lemma ExcerptHidesTruncation(head: string)
    requires |head| == ExcerptLimit
    ensures |head + "..."| > ExcerptLimit && Excerpt(head + "...") == head + "..."
  {
    assert (head + "...")[..ExcerptLimit] == head;
  }
}
