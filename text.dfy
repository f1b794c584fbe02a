/**
 * Character-level building blocks for the two record codecs: whitespace as
 * Python's `\s` and `str.strip` see it, substring search, and the small
 * searches that model how the codecs' regular expressions are matched
 * (a greedy `\s*\n` that backtracks, a lazy `(.*?)` up to a fixed marker).
 */
module Text {
  import opened Wrappers

  /** Python's Unicode whitespace: what `\s` matches in a str pattern and what `str.strip` removes. */
  predicate IsWs(c: char) {
    || c == ' ' || c == '\t' || c == '\n' || c == '\r' || c == '\U{000B}' || c == '\U{000C}'
    || ('\U{001C}' <= c <= '\U{001F}') || c == '\U{0085}' || c == '\U{00A0}' || c == '\U{1680}'
    || ('\U{2000}' <= c <= '\U{200A}') || c == '\U{2028}' || c == '\U{2029}' || c == '\U{202F}'
    || c == '\U{205F}' || c == '\U{3000}'
  }

  predicate AllWs(s: string) {
    forall i :: 0 <= i < |s| ==> IsWs(s[i])
  }

  /** `s.lstrip()`: the suffix left after the longest whitespace prefix. */
  function TrimStart(s: string): (r: string)
    ensures |r| <= |s|
  {
    if s != [] && IsWs(s[0]) then TrimStart(s[1..]) else s
  }

  /** What `lstrip` leaves: a suffix, after a whitespace prefix, that does not itself start with whitespace. */
  lemma {:induction false} TrimStartShape(s: string)
    ensures var r := TrimStart(s);
      && r == s[|s| - |r|..] && AllWs(s[..|s| - |r|]) && (r == [] || !IsWs(r[0]))
    decreases |s|
  {
    if s != [] && IsWs(s[0]) {
      TrimStartShape(s[1..]);
      var r := TrimStart(s);
      assert s[1..][|s| - 1 - |r|..] == s[|s| - |r|..];
      assert forall i :: 1 <= i < |s| - |r| ==> s[i] == s[1..][..|s| - 1 - |r|][i - 1];
    }
  }

  /** `s.rstrip()`: the prefix left after the longest whitespace suffix. */
  function TrimEnd(s: string): (r: string)
    ensures |r| <= |s|
  {
    if s != [] && IsWs(s[|s| - 1]) then TrimEnd(s[..|s| - 1]) else s
  }

  /** What `rstrip` leaves: a prefix, before a whitespace suffix, that does not itself end with whitespace. */
  lemma {:induction false} TrimEndShape(s: string)
    ensures var r := TrimEnd(s);
      && r == s[..|r|] && AllWs(s[|r|..]) && (r == [] || !IsWs(r[|r| - 1]))
    decreases |s|
  {
    if s != [] && IsWs(s[|s| - 1]) {
      TrimEndShape(s[..|s| - 1]);
      var r := TrimEnd(s);
      assert s[..|s| - 1][..|r|] == s[..|r|];
      assert forall i :: |r| <= i < |s| - 1 ==> s[i] == s[..|s| - 1][|r|..][i - |r|];
    }
  }

  /** `s.strip()`. */
  function Strip(s: string): string {
    TrimEnd(TrimStart(s))
  }

  lemma {:induction false} TrimStartWsPrefix(p: string, s: string)
    requires AllWs(p)
    ensures TrimStart(p + s) == TrimStart(s)
  {
    if p != [] {
      assert (p + s)[0] == p[0];
      assert (p + s)[1..] == p[1..] + s;
      TrimStartWsPrefix(p[1..], s);
    } else {
      assert p + s == s;
    }
  }

  /** Dropping whitespace in front of a text does not change what `strip` returns. */
  lemma StripSkip(t: string, i: nat, j: nat)
    requires i <= j <= |t| && AllWs(t[i..j])
    ensures Strip(t[j..]) == Strip(t[i..])
  {
    assert t[i..] == t[i..j] + t[j..];
    TrimStartWsPrefix(t[i..j], t[j..]);
  }

  /** Two whitespace runs from the same place leave the same stripped text. */
  lemma StripSkipEither(t: string, i: nat, j1: nat, j2: nat)
    requires i <= j1 <= |t| && AllWs(t[i..j1])
    requires i <= j2 <= |t| && AllWs(t[i..j2])
    ensures Strip(t[j1..]) == Strip(t[j2..])
  {
    StripSkip(t, i, j1);
    StripSkip(t, i, j2);
  }

  /** `pat` occurs in `t` at position `i`. */
  predicate StartsAt(t: string, i: nat, pat: string) {
    i + |pat| <= |t| && t[i..i + |pat|] == pat
  }

  lemma StartsAtSuffix(t: string, c: nat, k: nat, pat: string)
    requires c <= k <= |t|
    ensures StartsAt(t, k, pat) == StartsAt(t[c..], k - c, pat)
  {
    if k + |pat| <= |t| {
      assert t[c..][k - c..k - c + |pat|] == t[k..k + |pat|];
    }
  }

  lemma StartsAtPrefix(x: string, y: string, k: nat, pat: string)
    requires k + |pat| <= |x|
    ensures StartsAt(x + y, k, pat) == StartsAt(x, k, pat)
  {
    assert (x + y)[k..k + |pat|] == x[k..k + |pat|];
  }

  /** `t.find(pat, from)`: the first occurrence of `pat` at or after `from`. */
  function Find(t: string, pat: string, from: nat): (r: Option<nat>)
    ensures r.Some? ==> from <= r.value && StartsAt(t, r.value, pat)
    ensures r.Some? ==> forall k :: from <= k < r.value ==> !StartsAt(t, k, pat)
    ensures r.None? ==> forall k :: from <= k ==> !StartsAt(t, k, pat)
    decreases |t| - from
  {
    if from + |pat| > |t| then None
    else if t[from..from + |pat|] == pat then Some(from)
    else Find(t, pat, from + 1)
  }

  /** The first occurrence is the one search returns. */
  lemma FindIs(t: string, pat: string, from: nat, at: nat)
    requires from <= at && StartsAt(t, at, pat)
    requires forall k :: from <= k < at ==> !StartsAt(t, k, pat)
    ensures Find(t, pat, from) == Some(at)
  {
  }

  /** End of the whitespace run that starts at `i`. */
  function WsEnd(t: string, i: nat): (r: nat)
    requires i <= |t|
    ensures i <= r <= |t|
    ensures r == |t| || !IsWs(t[r])
    decreases |t| - i
  {
    if i < |t| && IsWs(t[i]) then WsEnd(t, i + 1) else i
  }

  /** Everything the whitespace run from `i` skips is whitespace. */
  lemma {:induction false} WsEndAllWs(t: string, i: nat)
    requires i <= |t|
    ensures AllWs(t[i..WsEnd(t, i)])
    decreases |t| - i
  {
    if i < |t| && IsWs(t[i]) {
      WsEndAllWs(t, i + 1);
      var r := WsEnd(t, i);
      assert t[i..r] == [t[i]] + t[i + 1..r];
    }
  }

  /** The last newline in `t[lo..hi]`. */
  function LastNewline(t: string, lo: nat, hi: nat): (r: Option<nat>)
    requires lo <= hi <= |t|
    ensures r.Some? ==> lo <= r.value < hi && t[r.value] == '\n'
    ensures r.None? ==> forall j :: lo <= j < hi ==> t[j] != '\n'
    decreases hi - lo
  {
    if hi == lo then None
    else if t[hi - 1] == '\n' then Some(hi - 1)
    else LastNewline(t, lo, hi - 1)
  }

  /** No newline follows the last one before `hi`. */
  lemma {:induction false} LastNewlineIsLast(t: string, lo: nat, hi: nat, j: nat)
    requires lo <= hi <= |t| && LastNewline(t, lo, hi).Some? && LastNewline(t, lo, hi).value < j < hi
    ensures t[j] != '\n'
    decreases hi - lo
  {
    if t[hi - 1] != '\n' && j < hi - 1 {
      LastNewlineIsLast(t, lo, hi - 1, j);
    }
  }

  /** The closing `\n---\s*\n` of a metadata block starts at `e`. */
  predicate CloserAt(t: string, e: nat) {
    StartsAt(t, e, "\n---") && LastNewline(t, e + 4, WsEnd(t, e + 4)).Some?
  }

  /** The lazy `(.*?)\n---\s*\n`: the first closer at or after `from`. */
  function FindCloser(t: string, from: nat): (r: Option<nat>)
    ensures r.Some? ==> from <= r.value && CloserAt(t, r.value)
    ensures r.Some? ==> forall k :: from <= k < r.value ==> !CloserAt(t, k)
    ensures r.None? ==> forall k :: from <= k ==> !CloserAt(t, k)
    decreases |t| - from
  {
    if from + 4 > |t| then None
    else if CloserAt(t, from) then Some(from)
    else FindCloser(t, from + 1)
  }

  lemma FindCloserIs(t: string, from: nat, at: nat)
    requires from <= at && CloserAt(t, at)
    requires forall k :: from <= k < at ==> !CloserAt(t, k)
    ensures FindCloser(t, from) == Some(at)
  {
  }

  /**
   * `\s*\n(.*?)\n---\s*\n` matched where the whitespace run `t[lo..hi]`
   * begins: the greedy `\s*` first ends at the last newline of the run and
   * gives back one newline at a time until a closer follows. Returns where
   * the block starts and where its closer starts.
   */
  function TryOpen(t: string, lo: nat, hi: nat): (r: Option<(nat, nat)>)
    requires lo <= hi <= |t|
    ensures r.Some? ==> lo < r.value.0 <= r.value.1 && r.value.0 <= hi && CloserAt(t, r.value.1)
    decreases hi
  {
    match LastNewline(t, lo, hi)
    case None => None
    case Some(k) =>
      match FindCloser(t, k + 1)
      case Some(e) => Some((k + 1, e))
      case None => TryOpen(t, lo, k)
  }

  /**
   * `\s*\n(.*?)<pat>` matched where the whitespace run `t[lo..hi]` begins:
   * the same backtracking newline choice, followed by the first occurrence
   * of `pat`. Returns where the body starts and where `pat` starts.
   */
  function TryBody(t: string, lo: nat, hi: nat, pat: string): (r: Option<(nat, nat)>)
    requires lo <= hi <= |t|
    ensures r.Some? ==> lo < r.value.0 <= r.value.1 && r.value.0 <= hi && r.value.1 + |pat| <= |t|
    decreases hi
  {
    match LastNewline(t, lo, hi)
    case None => None
    case Some(k) =>
      match Find(t, pat, k + 1)
      case Some(m) => Some((k + 1, m))
      case None => TryBody(t, lo, k, pat)
  }

  /** What the body search stops at is an occurrence of `pat`. */
  lemma {:induction false} TryBodyEndsAtPat(t: string, lo: nat, hi: nat, pat: string)
    requires lo <= hi <= |t| && TryBody(t, lo, hi, pat).Some?
    ensures StartsAt(t, TryBody(t, lo, hi, pat).value.1, pat)
    decreases hi
  {
    var k := LastNewline(t, lo, hi).value;
    if Find(t, pat, k + 1).None? {
      TryBodyMissed(t, lo, hi, pat, k);
      TryBodyEndsAtPat(t, lo, k, pat);
    }
  }

  lemma {:induction false} BodyEndsAt(t: string, lo: nat, hi: nat, pat: string, m: nat)
    requires lo <= hi <= |t| && TryBody(t, lo, hi, pat).Some? && TryBody(t, lo, hi, pat).value.1 == m
    ensures StartsAt(t, m, pat)
  {
    TryBodyEndsAtPat(t, lo, hi, pat);
  }

  /** `s.rfind(c)`: the last position of `c` in `s`. */
  function LastIndexOf(s: string, c: char): (r: Option<nat>)
    ensures r.Some? ==> r.value < |s| && s[r.value] == c
    ensures r.Some? ==> forall j :: r.value < j < |s| ==> s[j] != c
    ensures r.None? ==> c !in s
  {
    if s == [] then None
    else if s[|s| - 1] == c then Some(|s| - 1)
    else
      var r := LastIndexOf(s[..|s| - 1], c);
      assert s == s[..|s| - 1] + [s[|s| - 1]];
      r
  }

  // ------------------------------------------------ matches of known shape

  /** In a block that holds no `\n---` and is followed by a newline, no closer begins before the block ends. */
  lemma NoCloserInside(t: string, start: nat, y: string)
    requires start + |y| < |t| && t[start..start + |y|] == y && t[start + |y|] == '\n'
    requires forall k :: 0 <= k < |y| ==> !StartsAt(y, k, "\n---")
    ensures forall k :: start <= k < start + |y| ==> !StartsAt(t, k, "\n---")
  {
    forall k | start <= k < start + |y|
      ensures !StartsAt(t, k, "\n---")
    {
      if StartsAt(t, k, "\n---") {
        if k + 4 <= start + |y| {
          StartsAtSuffix(t, start, k, "\n---");
          assert t[start..] == y + t[start + |y|..];
          StartsAtPrefix(y, t[start + |y|..], k - start, "\n---");
        }
      }
    }
  }

  /** `\n---` directly followed by a newline is a closer. */
  lemma CloserThenNewline(t: string, e: nat)
    requires e + 5 <= |t| && t[e..e + 4] == "\n---" && t[e + 4] == '\n'
    ensures CloserAt(t, e)
  {
    assert WsEnd(t, e + 4) > e + 4;
  }

  /**
   * A newline, then a block `y` that starts with a non-blank character and
   * holds no `\n---`, then a closer: the opening `\s*\n` ends at that
   * newline and the block runs exactly up to the closer.
   */
  lemma OpenAt(t: string, o: nat, y: string)
    requires |y| >= 1 && !IsWs(y[0]) && forall k :: 0 <= k < |y| ==> !StartsAt(y, k, "\n---")
    requires o + |y| + 5 <= |t| && t[o] == '\n' && t[o + 1..o + 1 + |y|] == y
    requires CloserAt(t, o + 1 + |y|)
    ensures WsEnd(t, o) == o + 1
    ensures TryOpen(t, o, o + 1) == Some((o + 1, o + 1 + |y|))
  {
    assert t[o + 1] == t[o + 1..o + 1 + |y|][0] == y[0];
    WsStops(t, o + 1);
    WsStep(t, o);
    NewlineLast(t, o);
    CloserAfterBlock(t, o + 1, y);
    TryOpenFound(t, o, o + 1, o, o + 1 + |y|);
  }

  /** A whitespace run from a non-whitespace character is empty. */
  lemma WsStops(t: string, i: nat)
    requires i < |t| && !IsWs(t[i])
    ensures WsEnd(t, i) == i
  {
  }

  /** A whitespace run from a whitespace character goes on from the next one. */
  lemma WsStep(t: string, i: nat)
    requires i < |t| && IsWs(t[i])
    ensures WsEnd(t, i) == WsEnd(t, i + 1)
  {
  }

  /** A newline is the last one in the one-character run it makes. */
  lemma NewlineLast(t: string, k: nat)
    requires k < |t| && t[k] == '\n'
    ensures LastNewline(t, k, k + 1) == Some(k)
  {
  }

  /** The first closer after a block free of `\n---` is the one right after it. */
  lemma CloserAfterBlock(t: string, start: nat, y: string)
    requires start + |y| + 4 <= |t| && t[start..start + |y|] == y
    requires forall k :: 0 <= k < |y| ==> !StartsAt(y, k, "\n---")
    requires CloserAt(t, start + |y|)
    ensures FindCloser(t, start) == Some(start + |y|)
  {
    var e := start + |y|;
    assert t[e] == t[e..e + 4][0] == '\n';
    NoCloserInside(t, start, y);
    FindCloserIs(t, start, e);
  }

  /** The opening search stops at the first closer after the run's last newline. */
  lemma TryOpenFound(t: string, lo: nat, hi: nat, k: nat, e: nat)
    requires lo <= hi <= |t| && LastNewline(t, lo, hi) == Some(k) && FindCloser(t, k + 1) == Some(e)
    ensures TryOpen(t, lo, hi) == Some((k + 1, e))
  {
  }

  lemma AllWsPrefix(t: string, lo: nat, hi: nat, j: nat)
    requires lo <= j <= hi <= |t| && AllWs(t[lo..hi])
    ensures AllWs(t[lo..j])
  {
    assert forall i :: lo <= i < j ==> t[i] == t[lo..hi][i - lo];
  }

  /** A run that starts with a newline has a last newline. */
  lemma LastNewlineIn(t: string, lo: nat, hi: nat) returns (k: nat)
    requires lo < hi <= |t| && t[lo] == '\n'
    ensures LastNewline(t, lo, hi) == Some(k) && lo <= k < hi
  {
    k := LastNewline(t, lo, hi).value;
  }

  lemma TryBodyFound(t: string, lo: nat, hi: nat, pat: string, k: nat, m: nat)
    requires lo <= hi <= |t| && LastNewline(t, lo, hi) == Some(k) && Find(t, pat, k + 1) == Some(m)
    ensures TryBody(t, lo, hi, pat) == Some((k + 1, m))
  {
  }

  lemma TryBodyMissed(t: string, lo: nat, hi: nat, pat: string, k: nat)
    requires lo <= hi <= |t| && LastNewline(t, lo, hi) == Some(k) && Find(t, pat, k + 1).None?
    ensures TryBody(t, lo, hi, pat) == TryBody(t, lo, k, pat)
  {
  }

  /**
   * `\s*\n(.*?)<pat>` over a whitespace run that starts with a newline,
   * when `pat` occurs after that newline only at `m`: the match ends at `m`
   * and the captured text begins after a newline of the run.
   */
  lemma {:induction false} TryBodyUnique(t: string, lo: nat, hi: nat, pat: string, m: nat) returns (g: nat)
    requires lo < hi <= |t| && t[lo] == '\n' && AllWs(t[lo..hi])
    requires lo < m && StartsAt(t, m, pat)
    requires forall k :: lo < k && StartsAt(t, k, pat) ==> k == m
    ensures TryBody(t, lo, hi, pat) == Some((g, m))
    ensures lo < g <= m && g <= hi && AllWs(t[lo..g])
    decreases hi
  {
    var k := LastNewlineIn(t, lo, hi);
    AllWsPrefix(t, lo, hi, k + 1);
    if k + 1 <= m {
      FindIs(t, pat, k + 1, m);
      TryBodyFound(t, lo, hi, pat, k, m);
      g := k + 1;
    } else {
      assert Find(t, pat, k + 1).None?;
      TryBodyMissed(t, lo, hi, pat, k);
      AllWsPrefix(t, lo, hi, k);
      g := TryBodyUnique(t, lo, k, pat, m);
    }
  }

}
