/**
 * The log-redaction helpers of getCharge/dianfei_core.py: masking a secret,
 * masking the sensitive headers of a dict, and shortening a long text
 * before it is logged.
 */
module Redaction {
  import opened Wrappers
  import opened Text
  import opened Headers

  /** `"*" * n`. */
  function Stars(n: nat): (r: string)
    ensures |r| == n && forall i :: 0 <= i < n ==> r[i] == '*'
  {
    seq(n, _ => '*')
  }

  /**
   * `_mask(s, keep_head, keep_tail)`: `None` becomes the empty text; a text
   * no longer than `keep_head + keep_tail` becomes all stars; a longer one
   * keeps its first `keep_head` and last `keep_tail` characters.
   * This is the intended reading of the last slice; see MaskAsWritten.
   */
  function Mask(s: Option<string>, keepHead: nat := 6, keepTail: nat := 4): (r: string)
    ensures s.None? ==> r == ""
    ensures s.Some? ==> |r| == |s.value|
    ensures s.Some? && |s.value| <= keepHead + keepTail ==> r == Stars(|s.value|)
    ensures s.Some? && |s.value| > keepHead + keepTail ==>
      && r[..keepHead] == s.value[..keepHead]
      && r[|r| - keepTail..] == s.value[|s.value| - keepTail..]
      && forall i :: keepHead <= i < |r| - keepTail ==> r[i] == '*'
  {
    match s
    case None => ""
    case Some(t) =>
      if |t| <= keepHead + keepTail then Stars(|t|)
      else
        var r := t[..keepHead] + Stars(|t| - keepHead - keepTail) + t[|t| - keepTail..];
        assert r[..keepHead] == t[..keepHead];
        assert r[|r| - keepTail..] == t[|t| - keepTail..];
        r
  }

  /** Python's `t[-n:]`: for `n == 0` this is `t[0:]`, the whole text. */
  function PyTail(t: string, n: nat): string
    requires n <= |t|
  {
    if n == 0 then t else t[|t| - n..]
  }

  /**
   * `_mask` exactly as written, with `s[-keep_tail:]` as the last slice:
   * with no tail to keep, a long secret is followed by the whole of itself,
   * so the mask is twice its length and ends with it.
   */
  function MaskAsWritten(s: Option<string>, keepHead: nat := 6, keepTail: nat := 4): (r: string)
    ensures s.None? ==> r == ""
    ensures s.Some? ==>
      |r| == if keepTail == 0 && |s.value| > keepHead then 2 * |s.value| else |s.value|
    ensures s.Some? && keepTail == 0 && |s.value| > keepHead ==> r[|s.value|..] == s.value
  {
    match s
    case None => ""
    case Some(t) =>
      if |t| <= keepHead + keepTail then Stars(|t|)
      else t[..keepHead] + Stars(|t| - keepHead - keepTail) + PyTail(t, keepTail)
  }

  /** With a tail to keep, as every caller has (the default is 4), the
      code as written and the intended mask agree. */
  lemma MaskAsWrittenAgrees(s: Option<string>, keepHead: nat, keepTail: nat)
    requires keepTail > 0
    ensures MaskAsWritten(s, keepHead, keepTail) == Mask(s, keepHead, keepTail)
  {
  }

  /** With `keep_tail = 0` the code as written appends the whole secret
      after the stars, so the mask is longer than the text and reveals it. */
  lemma MaskAsWrittenRevealsWithoutTail()
    ensures MaskAsWritten(Some("abcdefgh"), 6, 0) == "abcdef**abcdefgh"
    ensures |MaskAsWritten(Some("abcdefgh"), 6, 0)| != |"abcdefgh"|
  {
    assert Stars(2) == "**";
  }

  // ---------------------------------------------------------------------
  // _redact_headers

  /** The header name, lower-cased, mentions a credential. */
  predicate Sensitive(name: string) {
    var low := Lower(name);
    Contains(low, "cookie") || Contains(low, "authorization") || Contains(low, "token") ||
    Contains(low, "auth")
  }

  /** "authorization" adds nothing to the list: it already contains "auth". */
  lemma SensitiveNames(name: string)
    ensures Sensitive(name) <==>
      Contains(Lower(name), "cookie") || Contains(Lower(name), "token") || Contains(Lower(name), "auth")
  {
    if Contains(Lower(name), "authorization") {
      ContainsPrefix(Lower(name), "authorization", "auth");
    }
  }

  /** The value a header shows in the log. */
  function RedactedValue(name: string, value: string): (r: string)
    ensures |r| == |value|
    ensures !Sensitive(name) ==> r == value
  {
    if Sensitive(name) then Mask(Some(value)) else value
  }

  /** The dict `_redact_headers` returns, entry by entry. */
  function Redacted(hdr: Dict): (r: Dict)
    ensures |r| == |hdr|
  {
    seq(|hdr|, i requires 0 <= i < |hdr| => (hdr[i].0, RedactedValue(hdr[i].0, hdr[i].1)))
  }

  /** Looking a header up in the redacted dict gives its masked value, and
      the redacted dict has exactly the names of the original. */
  lemma {:induction false} RedactedLookup(hdr: Dict, k: string)
    ensures Lookup(Redacted(hdr), k) ==
      match Lookup(hdr, k) { case None => None case Some(v) => Some(RedactedValue(k, v)) }
  {
    if hdr != [] {
      assert Redacted(hdr)[1..] == Redacted(hdr[1..]);
      RedactedLookup(hdr[1..], k);
    }
  }

  /** Setting an existing name of a dict rewrites just that entry. */
  lemma {:induction false} PutExisting(d: Dict, i: nat, v: string)
    requires DistinctNames(d) && i < |d|
    ensures Put(d, d[i].0, v) == d[i := (d[i].0, v)]
  {
    if i > 0 {
      PutExisting(d[1..], i - 1, v);
      NamesIn(d[1..]);
      assert d[1..][i - 1].0 == d[i].0;
      ConsUpdate(d, i, (d[i].0, v));
    }
  }

  lemma ConsUpdate<T>(d: seq<T>, i: nat, x: T)
    requires 0 < i < |d|
    ensures [d[0]] + d[1..][i - 1 := x] == d[i := x]
  {
  }

  /**
   * `_redact_headers`: the copy's sensitive entries are overwritten one name
   * at a time; the caller's dict is a value here and stays as it was.
   */
  method RedactHeaders(hdr: Dict) returns (redacted: Dict)
    requires DistinctNames(hdr)
    ensures redacted == Redacted(hdr)
  {
    redacted := hdr;
    var i := 0;
    while i < |hdr|
      invariant 0 <= i <= |hdr|
      invariant |redacted| == |hdr|
      invariant forall j :: 0 <= j < i ==> redacted[j] == Redacted(hdr)[j]
      invariant forall j :: i <= j < |hdr| ==> redacted[j] == hdr[j]
      invariant DistinctNames(redacted)
    {
      var key := redacted[i].0;
      assert redacted[i] == hdr[i];
      ghost var entry := Redacted(hdr)[i];
      if Sensitive(key) {
        var masked := Mask(Some(redacted[i].1));
        PutExisting(redacted, i, masked);
        PutOrder(redacted, key, masked);
        redacted := Put(redacted, key, masked);
      }
      assert redacted[i] == entry;
      i := i + 1;
    }
  }

  // ---------------------------------------------------------------------
  // _safe_preview

  const Truncated := "...(truncated)"

  /** `_safe_preview(text, n)`: short texts unchanged, long ones cut to their
      first `n` characters and marked. */
  function SafePreview(text: string, n: nat := 200): (r: string)
    ensures |text| <= n ==> r == text
    ensures |text| > n ==> |r| == n + |Truncated| && r[..n] == text[..n] && r[n..] == Truncated
    ensures |r| <= n + |Truncated|
  {
    if |text| <= n then text else text[..n] + Truncated
  }
}
