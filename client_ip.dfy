/**
 * The client address the reaction handler deduplicates on: the first
 * comma-separated entry of the `x-forwarded-for` header, trimmed, or the
 * socket's remote address when the header is absent or that entry is blank.
 */
module ClientIp {
  import opened Maybe

  /** The characters `String.prototype.trim` removes: white space and line terminators. */
  predicate IsJsSpace(c: char) {
    || c == '\t' || c == '\n' || c == '\U{000B}' || c == '\U{000C}' || c == '\r' || c == ' '
    || c == '\U{00A0}' || c == '\U{1680}' || ('\U{2000}' <= c <= '\U{200A}')
    || c == '\U{2028}' || c == '\U{2029}' || c == '\U{202F}' || c == '\U{205F}'
    || c == '\U{3000}' || c == '\U{FEFF}'
  }

  /** Every character of `s` is white space. */
  predicate AllSpace(s: string) {
    forall i :: 0 <= i < |s| ==> IsJsSpace(s[i])
  }

  /** `s[lo..hi]` is white space. */
  predicate SpaceIn(s: string, lo: nat, hi: nat)
    requires lo <= hi <= |s|
  {
    forall i :: lo <= i < hi ==> IsJsSpace(s[i])
  }

  /** Where the text of `s[i..]` starts: the first position from `i` on that is not white space, or the end. */
  function TrimStartAt(s: string, i: nat): (k: nat)
    requires i <= |s|
    ensures i <= k <= |s| && SpaceIn(s, i, k)
    ensures k == |s| || !IsJsSpace(s[k])
    decreases |s| - i
  {
    if i < |s| && IsJsSpace(s[i]) then TrimStartAt(s, i + 1) else i
  }

  /** Where the text of `s[lo..j]` ends: the position just after its last character that is not white space, or `lo`. */
  function TrimEndAt(s: string, lo: nat, j: nat): (k: nat)
    requires lo <= j <= |s|
    ensures lo <= k <= j && SpaceIn(s, k, j)
    ensures k == lo || !IsJsSpace(s[k - 1])
  {
    if j > lo && IsJsSpace(s[j - 1]) then TrimEndAt(s, lo, j - 1) else j
  }

  /** `s.trim()`: the result neither starts nor ends with white space. */
  function Trim(s: string): (r: string)
    ensures r == [] || (!IsJsSpace(r[0]) && !IsJsSpace(r[|r| - 1]))
  {
    var lo := TrimStartAt(s, 0);
    s[lo..TrimEndAt(s, lo, |s|)]
  }

  /** What Trim keeps is a contiguous part of `s`, and what it cuts off on either side is white space. */
  lemma {:induction false} TrimIsSlice(s: string)
    ensures var r := Trim(s);
      exists i :: 0 <= i <= |s| - |r| && r == s[i..i + |r|] && SpaceIn(s, 0, i) && SpaceIn(s, i + |r|, |s|)
  {
    var lo := TrimStartAt(s, 0);
    var hi := TrimEndAt(s, lo, |s|);
    assert Trim(s) == s[lo..hi];
    assert lo + |Trim(s)| == hi;
  }

  /** Trimming a comma-free string leaves it comma-free. */
  lemma {:induction false} TrimCommaFree(s: string)
    requires forall i :: 0 <= i < |s| ==> s[i] != ','
    ensures forall i :: 0 <= i < |Trim(s)| ==> Trim(s)[i] != ','
  {
    var lo := TrimStartAt(s, 0);
    var r := Trim(s);
    forall i | 0 <= i < |r|
      ensures r[i] != ','
    {
      assert r[i] == s[lo + i];
    }
  }

  /** Trim gives "" exactly when `s` is all white space. */
  lemma {:induction false} TrimEmptyIff(s: string)
    ensures Trim(s) == [] <==> AllSpace(s)
  {
    var lo := TrimStartAt(s, 0);
    var hi := TrimEndAt(s, lo, |s|);
    if lo == hi {
      assert forall i :: 0 <= i < |s| ==> IsJsSpace(s[i]) by {
        forall i | 0 <= i < |s| ensures IsJsSpace(s[i]) {
          if i >= lo { assert SpaceIn(s, hi, |s|); }
        }
      }
    }
  }

  /** `h.split(',')[0]`: everything before the first comma. */
  function FirstField(h: string): (r: string)
    ensures |r| <= |h| && r == h[..|r|]
    ensures forall i :: 0 <= i < |r| ==> r[i] != ','
    ensures |r| < |h| ==> h[|r|] == ','
  {
    if h == [] || h[0] == ',' then [] else [h[0]] + FirstField(h[1..])
  }

  /**
   * `req.headers['x-forwarded-for']?.split(',')[0].trim() || remoteAddress`.
   * The answer is the remote address when there is no header or its first
   * field is blank, and a non-blank, comma-free, trimmed text otherwise.
   */
  function ClientIp(forwardedFor: Option<string>, remoteAddress: string): (ip: string)
    ensures forwardedFor.None? ==> ip == remoteAddress
    ensures forwardedFor.Some? && AllSpace(FirstField(forwardedFor.value)) ==> ip == remoteAddress
    ensures forwardedFor.Some? && !AllSpace(FirstField(forwardedFor.value)) ==>
      ip != [] && !IsJsSpace(ip[0]) && !IsJsSpace(ip[|ip| - 1]) && forall i :: 0 <= i < |ip| ==> ip[i] != ','
  {
    match forwardedFor
    case None => remoteAddress
    case Some(h) =>
      var first := Trim(FirstField(h));
      TrimCommaFree(FirstField(h));
      TrimEmptyIff(FirstField(h));
      if first == "" then remoteAddress else first
  }

  /** A comma-free prefix followed by a comma (or by nothing) is the first field. */
  lemma {:induction false} FirstFieldOf(x: string, rest: string)
    requires forall i :: 0 <= i < |x| ==> x[i] != ','
    requires rest == [] || rest[0] == ','
    ensures FirstField(x + rest) == x
  {
    if x != [] {
      assert (x + rest)[1..] == x[1..] + rest;
      FirstFieldOf(x[1..], rest);
    }
  }

  /** The text of `s[i..]` starts at `k` when only white space comes before it and `s[k]` is not white space. */
  lemma {:induction false} TrimStartAtIs(s: string, i: nat, k: nat)
    requires i <= k <= |s| && SpaceIn(s, i, k) && (k == |s| || !IsJsSpace(s[k]))
    ensures TrimStartAt(s, i) == k
    decreases k - i
  {
    if i < k {
      TrimStartAtIs(s, i + 1, k);
    }
  }

  /** The text of `s[lo..j]` ends at `k` when only white space follows it and `s[k - 1]` is not white space. */
  lemma {:induction false} TrimEndAtIs(s: string, lo: nat, j: nat, k: nat)
    requires lo <= k <= j <= |s| && SpaceIn(s, k, j) && (k == lo || !IsJsSpace(s[k - 1]))
    ensures TrimEndAt(s, lo, j) == k
    decreases j - k
  {
    if k < j {
      TrimEndAtIs(s, lo, j - 1, k);
    }
  }

  /**
   * Round trip: a proxy that puts `ip`, padded with white space, first in an
   * `x-forwarded-for` list gets exactly `ip` back, whatever the remote
   * address and whatever follows the first comma.
   */
  lemma {:induction false} ForwardedForRoundTrip(lead: string, ip: string, trail: string, rest: string, remoteAddress: string)
    requires AllSpace(lead) && AllSpace(trail)
    requires ip != [] && !IsJsSpace(ip[0]) && !IsJsSpace(ip[|ip| - 1])
    requires forall i :: 0 <= i < |ip| ==> ip[i] != ','
    requires rest == [] || rest[0] == ','
    ensures ClientIp(Some(lead + ip + trail + rest), remoteAddress) == ip
  {
    var field := lead + ip + trail;
    var lo, hi := |lead|, |lead| + |ip|;
    forall i | 0 <= i < |field|
      ensures field[i] != ','
      ensures i < lo || hi <= i ==> IsJsSpace(field[i])
    {
      if i < lo { assert field[i] == lead[i]; }
      else if i < hi { assert field[i] == ip[i - lo]; }
      else { assert field[i] == trail[i - hi]; }
    }
    assert lead + ip + trail + rest == field + rest;
    FirstFieldOf(field, rest);
    assert field[lo] == ip[0] && field[hi - 1] == ip[|ip| - 1];
    TrimStartAtIs(field, 0, lo);
    TrimEndAtIs(field, lo, |field|, hi);
    assert field[lo..hi] == ip;
  }
}
