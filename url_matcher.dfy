/**
 * The TikTok link detector: a hand-written matcher for the pattern
 * `https?://(?:(?:www|vt|vm|m)\.)?tiktok\.com/[^\s]+` compiled with
 * IGNORECASE, used through `search` (leftmost match) and `group(0)`.
 */
module UrlMatcher {
  import opened Wrappers
  import opened Text

  // ---------------------------------------------------------------------------
  // Reference definition of what the pattern accepts
  // ---------------------------------------------------------------------------

  /** `https?://`. */
  const Schemes: set<string> := {"http://", "https://"}

  predicate IsScheme(w: string) {
    w in Schemes
  }

  const Domain := "tiktok.com/"

  /** The domain with its slash, after none or one of the subdomains the pattern lists. */
  const Hosts: set<string> := {Domain, "www." + Domain, "vt." + Domain, "vm." + Domain, "m." + Domain}

  predicate IsHost(w: string) {
    w in Hosts
  }

  /**
   * `u` is a scheme, then a host (optional subdomain and the domain with its
   * slash), both in any letter case, then a non-empty run without whitespace.
   */
  ghost predicate UrlShape(u: string) {
    exists a, b :: ShapeCuts(u, a, b)
  }

  /** `u[..a]` is the scheme, `u[a..b]` the host and `u[b..]` the non-empty path. */
  predicate ShapeCuts(u: string, a: int, b: int) {
    0 < a < b < |u| && IsScheme(Lower(u[..a])) && IsHost(Lower(u[a..b])) && NoSpace(u[b..])
  }

  /** The pattern matches `s[i..j]` and, being greedy, cannot extend it. */
  ghost predicate MatchSpan(s: string, i: int, j: int) {
    0 <= i < j <= |s| && UrlShape(s[i..j]) && (j == |s| || IsSpace(s[j]))
  }

  // ---------------------------------------------------------------------------
  // The matcher
  // ---------------------------------------------------------------------------

  /** The lower-case literal `w` occurs at position `i` of `s`, ignoring ASCII case. */
  predicate LitAt(s: string, i: nat, w: string) {
    i + |w| <= |s| && Lower(s[i..i + |w|]) == w
  }

  /** `https?://` at `i`: the position after it, trying `https` first as the greedy `s?` does. */
  function SchemeEnd(s: string, i: nat): (r: Option<nat>) {
    if LitAt(s, i, "https://") then Some(i + 8)
    else if LitAt(s, i, "http://") then Some(i + 7)
    else None
  }

  /** `(?:(?:www|vt|vm|m)\.)?tiktok\.com/` at `j`: the alternatives in pattern order, then no subdomain. */
  function HostEnd(s: string, j: nat): (r: Option<nat>) {
    if LitAt(s, j, "www.") && LitAt(s, j + 4, Domain) then Some(j + 4 + |Domain|)
    else if LitAt(s, j, "vt.") && LitAt(s, j + 3, Domain) then Some(j + 3 + |Domain|)
    else if LitAt(s, j, "vm.") && LitAt(s, j + 3, Domain) then Some(j + 3 + |Domain|)
    else if LitAt(s, j, "m.") && LitAt(s, j + 2, Domain) then Some(j + 2 + |Domain|)
    else if LitAt(s, j, Domain) then Some(j + |Domain|)
    else None
  }

  /** The end of the longest whitespace-free run starting at `j`. */
  function RunEnd(s: string, j: nat): (e: nat)
    requires j <= |s|
    ensures j <= e <= |s|
    ensures NoSpace(s[j..e])
    ensures e == |s| || IsSpace(s[e])
    decreases |s| - j
  {
    if j == |s| || IsSpace(s[j]) then j
    else
      var e := RunEnd(s, j + 1);
      assert s[j..e] == [s[j]] + s[j + 1..e];
      e
  }

  /** The end of the match starting at `i`, if the pattern matches there. */
  function MatchAt(s: string, i: nat): (r: Option<nat>) {
    match SchemeEnd(s, i)
    case None => None
    case Some(j) =>
      match HostEnd(s, j)
      case None => None
      case Some(h) => if h < |s| && !IsSpace(s[h]) then Some(RunEnd(s, h)) else None
  }

  /** `search` from position `i`: the leftmost match at or after `i`, as a span. */
  function SearchFrom(s: string, i: nat): (r: Option<(nat, nat)>)
    requires i <= |s|
    ensures r.Some? ==> i <= r.value.0 && MatchAt(s, r.value.0) == Some(r.value.1)
    ensures r.Some? ==> forall k :: i <= k < r.value.0 ==> MatchAt(s, k).None?
    ensures r.None? ==> forall k :: i <= k <= |s| ==> MatchAt(s, k).None?
    decreases |s| - i
  {
    if i == |s| then
      assert SchemeEnd(s, i).None?;
      None
    else
      match MatchAt(s, i)
      case Some(j) => Some((i, j))
      case None => SearchFrom(s, i + 1)
  }

  /** `TT_REGEX.search(text)`: the span of the leftmost match. */
  function FindSpan(text: string): (r: Option<(nat, nat)>) {
    SearchFrom(text, 0)
  }

  /** `match.group(0)` of `TT_REGEX.search(text)`, or `None` when nothing matches. */
  function FindUrl(text: string): (r: Option<string>) {
    match FindSpan(text)
    case None => None
    case Some(span) =>
      MatchAtSound(text, span.0, span.1);
      Some(text[span.0..span.1])
  }

  // ---------------------------------------------------------------------------
  // The matcher agrees with the reference definition
  // ---------------------------------------------------------------------------

  /** A literal at `i`, character by character. */
  lemma LitAtPointwise(s: string, i: nat, w: string)
    ensures LitAt(s, i, w) <==> i + |w| <= |s| && forall k :: 0 <= k < |w| ==> ToLower(s[i + k]) == w[k]
  {
    if i + |w| <= |s| && forall k :: 0 <= k < |w| ==> ToLower(s[i + k]) == w[k] {
      assert forall k :: 0 <= k < |w| ==> Lower(s[i..i + |w|])[k] == w[k];
    }
  }

  lemma LitAtConcat(s: string, i: nat, a: string, b: string)
    ensures LitAt(s, i, a + b) <==> LitAt(s, i, a) && LitAt(s, i + |a|, b)
  {
    LitAtPointwise(s, i, a);
    LitAtPointwise(s, i + |a|, b);
    LitAtPointwise(s, i, a + b);
    if LitAt(s, i, a) && LitAt(s, i + |a|, b) {
      forall k | 0 <= k < |a| + |b| ensures ToLower(s[i + k]) == (a + b)[k] {
        if k >= |a| {
          assert ToLower(s[i + |a| + (k - |a|)]) == b[k - |a|];
        }
      }
    }
    if LitAt(s, i, a + b) {
      forall k | 0 <= k < |a| ensures ToLower(s[i + k]) == a[k] {
        assert ToLower(s[i + k]) == (a + b)[k];
      }
      forall k | 0 <= k < |b| ensures ToLower(s[i + |a| + k]) == b[k] {
        assert ToLower(s[i + (|a| + k)]) == (a + b)[|a| + k];
      }
    }
  }

  lemma SchemeEndSpec(s: string, i: nat, j: nat)
    ensures SchemeEnd(s, i) == Some(j) <==> i < j <= |s| && IsScheme(Lower(s[i..j]))
  {
    if i < j <= |s| && Lower(s[i..j]) == "http://" {
      assert LitAt(s, i, "http://");
      LitAtExcludes(s, i, "http://", "https://", 4);
    }
  }

  /** A literal found at a position excludes every literal that differs from it there. */
  lemma LitAtExcludes(s: string, i: nat, a: string, b: string, k: nat)
    requires LitAt(s, i, a) && k < |a| && k < |b| && a[k] != b[k]
    ensures !LitAt(s, i, b)
  {
    assert Lower(s[i..i + |a|])[k] == ToLower(s[i + k]);
    if i + |b| <= |s| {
      assert Lower(s[i..i + |b|])[k] == ToLower(s[i + k]);
    }
  }

  lemma HostEndSound(s: string, j: nat, h: nat)
    requires HostEnd(s, j) == Some(h)
    ensures j < h <= |s| && IsHost(Lower(s[j..h]))
  {
    if LitAt(s, j, "www.") && LitAt(s, j + 4, Domain) {
      SubdomainHost(s, j, "www.");
    } else if LitAt(s, j, "vt.") && LitAt(s, j + 3, Domain) {
      SubdomainHost(s, j, "vt.");
    } else if LitAt(s, j, "vm.") && LitAt(s, j + 3, Domain) {
      SubdomainHost(s, j, "vm.");
    } else if LitAt(s, j, "m.") && LitAt(s, j + 2, Domain) {
      SubdomainHost(s, j, "m.");
    } else {
      assert h == j + |Domain|;
    }
  }

  /** A listed subdomain followed by the domain is a host. */
  lemma SubdomainHost(s: string, j: nat, sub: string)
    requires sub + Domain in Hosts && LitAt(s, j, sub) && LitAt(s, j + |sub|, Domain)
    ensures Lower(s[j..j + |sub| + |Domain|]) == sub + Domain
  {
    LitAtConcat(s, j, sub, Domain);
  }

  lemma HostEndComplete(s: string, j: nat, h: nat)
    requires j < h <= |s| && IsHost(Lower(s[j..h]))
    ensures HostEnd(s, j) == Some(h)
  {
    var w := Lower(s[j..h]);
    assert LitAt(s, j, w);
    if w == "www." + Domain {
      LitAtConcat(s, j, "www.", Domain);
    } else if w == "vt." + Domain {
      VtHost(s, j, h);
    } else if w == "vm." + Domain {
      VmHost(s, j, h);
    } else if w == "m." + Domain {
      MHost(s, j, h);
    } else {
      BareHost(s, j, h);
    }
  }

  lemma VtHost(s: string, j: nat, h: nat)
    requires j < h <= |s| && Lower(s[j..h]) == "vt." + Domain
    ensures HostEnd(s, j) == Some(h)
  {
    var w := Lower(s[j..h]);
    assert LitAt(s, j, w);
    LitAtConcat(s, j, "vt.", Domain);
    LitAtExcludes(s, j, w, "www.", 0);
  }

  lemma VmHost(s: string, j: nat, h: nat)
    requires j < h <= |s| && Lower(s[j..h]) == "vm." + Domain
    ensures HostEnd(s, j) == Some(h)
  {
    var w := Lower(s[j..h]);
    assert LitAt(s, j, w);
    LitAtConcat(s, j, "vm.", Domain);
    LitAtExcludes(s, j, w, "www.", 0);
    LitAtExcludes(s, j, w, "vt.", 1);
  }

  lemma MHost(s: string, j: nat, h: nat)
    requires j < h <= |s| && Lower(s[j..h]) == "m." + Domain
    ensures HostEnd(s, j) == Some(h)
  {
    var w := Lower(s[j..h]);
    assert LitAt(s, j, w);
    LitAtConcat(s, j, "m.", Domain);
    LitAtExcludes(s, j, w, "www.", 0);
    LitAtExcludes(s, j, w, "vt.", 0);
    LitAtExcludes(s, j, w, "vm.", 0);
  }

  lemma BareHost(s: string, j: nat, h: nat)
    requires j < h <= |s| && Lower(s[j..h]) == Domain
    ensures HostEnd(s, j) == Some(h)
  {
    var w := Lower(s[j..h]);
    assert LitAt(s, j, w);
    LitAtExcludes(s, j, w, "www.", 0);
    LitAtExcludes(s, j, w, "vt.", 0);
    LitAtExcludes(s, j, w, "vm.", 0);
    LitAtExcludes(s, j, w, "m.", 0);
  }

  lemma RunEndUnique(s: string, j: nat, e: nat)
    requires j <= e <= |s| && NoSpace(s[j..e]) && (e == |s| || IsSpace(s[e]))
    ensures RunEnd(s, j) == e
  {
    var r := RunEnd(s, j);
    assert forall k :: j <= k < e ==> !IsSpace(s[k]) by {
      forall k | j <= k < e ensures !IsSpace(s[k]) { assert s[j..e][k - j] == s[k]; }
    }
    assert forall k :: j <= k < r ==> !IsSpace(s[k]) by {
      forall k | j <= k < r ensures !IsSpace(s[k]) { assert s[j..r][k - j] == s[k]; }
    }
  }

  /** The pattern's three parts found in `s` between `i` and `j`, cut at `a` and `b`. */
  predicate CutsAt(s: string, i: nat, j: nat, a: nat, b: nat) {
    i < a < b < j <= |s| && IsScheme(Lower(s[i..a])) && IsHost(Lower(s[a..b])) && NoSpace(s[b..j])
    && (j == |s| || IsSpace(s[j]))
  }

  lemma MatchAtCuts(s: string, i: nat, j: nat) returns (a: nat, b: nat)
    requires MatchAt(s, i) == Some(j)
    ensures CutsAt(s, i, j, a, b)
  {
    a := SchemeEnd(s, i).value;
    b := HostEnd(s, a).value;
    SchemeEndSpec(s, i, a);
    HostEndSound(s, a, b);
  }

  lemma CutsMatchSpan(s: string, i: nat, j: nat, a: nat, b: nat)
    requires CutsAt(s, i, j, a, b)
    ensures MatchSpan(s, i, j)
  {
    CutsShape(s, i, j, a, b);
  }

  /** Every match the matcher reports is a greedy match of the pattern. */
  lemma MatchAtSound(s: string, i: nat, j: nat)
    requires MatchAt(s, i) == Some(j)
    ensures MatchSpan(s, i, j)
  {
    var a, b := MatchAtCuts(s, i, j);
    CutsMatchSpan(s, i, j, a, b);
  }

  /** Cut points in `s` are cut points of the slice `s[i..j]`, shifted by `i`. */
  lemma CutsShape(s: string, i: nat, j: nat, a: nat, b: nat)
    requires i < a < b < j <= |s|
    ensures ShapeCuts(s[i..j], a - i, b - i) <==>
      IsScheme(Lower(s[i..a])) && IsHost(Lower(s[a..b])) && NoSpace(s[b..j])
  {
    SliceTake(s, i, j, a - i);
    SliceMid(s, i, j, a - i, b - i);
    SliceDrop(s, i, j, b - i);
  }

  lemma SliceMid(s: string, i: nat, j: nat, x: nat, y: nat)
    requires i + y <= j <= |s| && x <= y
    ensures s[i..j][x..y] == s[i + x..i + y]
  {
    forall k | 0 <= k < y - x ensures s[i..j][x..y][k] == s[i + x..i + y][k] {
      assert s[i..j][x..y][k] == s[i..j][x + k] == s[i + x + k];
    }
  }

  lemma SliceTake(s: string, i: nat, j: nat, y: nat)
    requires i + y <= j <= |s|
    ensures s[i..j][..y] == s[i..i + y]
  {
    SliceMid(s, i, j, 0, y);
    assert s[i..j][..y] == s[i..j][0..y];
  }

  lemma SliceDrop(s: string, i: nat, j: nat, x: nat)
    requires i + x <= j <= |s|
    ensures s[i..j][x..] == s[i + x..j]
  {
    SliceMid(s, i, j, x, j - i);
    assert s[i..j][x..] == s[i..j][x..j - i];
  }

  lemma MatchSpanCuts(s: string, i: nat, j: nat) returns (a: nat, b: nat)
    requires MatchSpan(s, i, j)
    ensures CutsAt(s, i, j, a, b)
  {
    var x, y :| ShapeCuts(s[i..j], x, y);
    a, b := i + x, i + y;
    CutsShape(s, i, j, a, b);
  }

  /** Every greedy match of the pattern is found by the matcher. */
  lemma MatchAtComplete(s: string, i: nat, j: nat)
    requires MatchSpan(s, i, j)
    ensures MatchAt(s, i) == Some(j)
  {
    var a, b := MatchSpanCuts(s, i, j);
    CutsComplete(s, i, j, a, b);
  }

  lemma CutsComplete(s: string, i: nat, j: nat, a: nat, b: nat)
    requires CutsAt(s, i, j, a, b)
    ensures MatchAt(s, i) == Some(j)
  {
    SchemeEndSpec(s, i, a);
    HostEndComplete(s, a, b);
    assert !IsSpace(s[b]) by { assert s[b] == s[b..j][0]; }
    RunEndUnique(s, b, j);
  }

  // ---------------------------------------------------------------------------
  // What `search` plus `group(0)` returns
  // ---------------------------------------------------------------------------

  lemma MatchAtNone(s: string, i: nat)
    requires MatchAt(s, i).None?
    ensures forall j :: !MatchSpan(s, i, j)
  {
    forall j | MatchSpan(s, i, j) ensures false {
      MatchAtComplete(s, i, j);
    }
  }

  /** Greedy: a match starting at a position can end in only one place. */
  lemma MatchSpanEndUnique(s: string, i: nat, j: nat, k: nat)
    requires MatchSpan(s, i, j) && MatchSpan(s, i, k)
    ensures j == k
  {
    MatchAtComplete(s, i, j);
    MatchAtComplete(s, i, k);
  }

  /**
   * `TT_REGEX.search`: the reported span is a greedy match of the pattern and
   * no match starts further left; nothing is reported exactly when the text
   * holds no match at all.
   */
  lemma FindSpanSpec(text: string)
    ensures FindSpan(text).Some? ==> MatchSpan(text, FindSpan(text).value.0, FindSpan(text).value.1)
    ensures FindSpan(text).Some? ==> forall a, b :: 0 <= a < FindSpan(text).value.0 ==> !MatchSpan(text, a, b)
    ensures FindSpan(text).None? <==> forall a, b :: !MatchSpan(text, a, b)
  {
    var r := FindSpan(text);
    forall a, b | MatchSpan(text, a, b) && (r.None? || a < r.value.0) ensures false {
      MatchAtComplete(text, a, b);
    }
    if r.Some? {
      MatchAtSound(text, r.value.0, r.value.1);
    }
  }

  /**
   * The extracted link has the pattern's shape: scheme, optional subdomain and
   * `tiktok.com/` in any letter case, then at least one more character, and no
   * whitespace anywhere in it.
   */
  lemma FindUrlShape(text: string, u: string)
    requires FindUrl(text) == Some(u)
    ensures UrlShape(u)
    ensures NoSpace(u)
    ensures Lower(u[..7]) == "http://" || Lower(u[..8]) == "https://"
  {
    FindSpanSpec(text);
    ShapeHasNoSpace(u);
  }

  lemma ShapeHasNoSpace(u: string)
    requires UrlShape(u)
    ensures NoSpace(u)
    ensures Lower(u[..7]) == "http://" || Lower(u[..8]) == "https://"
  {
    var a, b :| ShapeCuts(u, a, b);
    PartsHaveNoSpace(Lower(u[..a]), Lower(u[a..b]));
    NoSpaceIfLowerHasNone(u[..a]);
    NoSpaceIfLowerHasNone(u[a..b]);
    NoSpaceConcat(u[..a], u[a..b]);
    assert u[..a] + u[a..b] == u[..b];
    NoSpaceConcat(u[..b], u[b..]);
    assert u[..b] + u[b..] == u;
  }

  lemma PartsHaveNoSpace(scheme: string, host: string)
    requires IsScheme(scheme) && IsHost(host)
    ensures NoSpace(scheme) && NoSpace(host)
  {
  }

  lemma NoSpaceIfLowerHasNone(x: string)
    requires NoSpace(Lower(x))
    ensures NoSpace(x)
  {
    LowerKeepsSpace(x);
  }

  lemma NoSpaceConcat(x: string, y: string)
    requires NoSpace(x) && NoSpace(y)
    ensures NoSpace(x + y)
  {
    forall k | 0 <= k < |x + y| ensures !IsSpace((x + y)[k]) {
      if k < |x| { assert (x + y)[k] == x[k]; } else { assert (x + y)[k] == y[k - |x|]; }
    }
  }

  /** The extracted link is the leftmost match and runs up to the next whitespace character or the end of the text. */
  lemma FindUrlLeftmostGreedy(text: string, i: nat, j: nat)
    requires FindSpan(text) == Some((i, j))
    ensures FindUrl(text) == Some(text[i..j])
    ensures NoSpace(text[i..j]) && (j == |text| || IsSpace(text[j]))
    ensures forall a, b :: 0 <= a < i ==> !MatchSpan(text, a, b)
  {
    FindSpanSpec(text);
    FindUrlShape(text, text[i..j]);
  }

  /** No link in the text means nothing is extracted, and conversely. */
  lemma FindUrlNone(text: string)
    ensures FindUrl(text).None? <==> forall a, b :: !MatchSpan(text, a, b)
  {
    FindSpanSpec(text);
  }

  /** The converse of `FindSpanSpec`: a greedy match with none further left is what `search` reports. */
  lemma FindSpanIs(s: string, i: nat, j: nat)
    requires MatchSpan(s, i, j)
    requires forall a, b :: 0 <= a < i ==> !MatchSpan(s, a, b)
    ensures FindSpan(s) == Some((i, j))
  {
    FindSpanSpec(s);
    var r := FindSpan(s).value;
    assert r.0 == i;
    MatchSpanEndUnique(s, i, j, r.1);
  }

  /** Every match starts with `h` or `H`, the first letter of the scheme. */
  lemma MatchStartsWithH(s: string, i: nat, j: nat)
    requires MatchSpan(s, i, j)
    ensures ToLower(s[i]) == 'h'
  {
    var a, b := MatchSpanCuts(s, i, j);
    assert Lower(s[i..a])[0] == ToLower(s[i]);
  }

  /**
   * A link preceded by text without the letter `h` (which every match starts
   * with) and followed by whitespace or the end of the message is extracted whole.
   */
  lemma FindUrlAfter(p: string, u: string, rest: string)
    requires forall k :: 0 <= k < |p| ==> ToLower(p[k]) != 'h'
    requires UrlShape(u)
    requires rest == [] || IsSpace(rest[0])
    ensures FindUrl(p + u + rest) == Some(u)
  {
    var s := p + u + rest;
    assert s[|p|..|p| + |u|] == u;
    assert |p| + |u| < |s| ==> s[|p| + |u|] == rest[0];
    forall a, b | 0 <= a < |p| && MatchSpan(s, a, b) ensures ToLower(s[a]) == 'h' {
      MatchStartsWithH(s, a, b);
    }
    assert forall a :: 0 <= a < |p| ==> s[a] == p[a];
    FindSpanIs(s, |p|, |p| + |u|);
  }

  lemma ShapeCutsIgnoreCase(u: string, v: string, a: int, b: int)
    requires Lower(u) == Lower(v)
    ensures ShapeCuts(u, a, b) <==> ShapeCuts(v, a, b)
  {
    if 0 < a < b < |u| {
      LowerSlice(u, 0, a);
      LowerSlice(v, 0, a);
      assert u[..a] == u[0..a] && v[..a] == v[0..a];
      LowerSlice(u, a, b);
      LowerSlice(v, a, b);
      LowerKeepsSpace(u);
      LowerKeepsSpace(v);
      assert NoSpace(u[b..]) <==> NoSpace(v[b..]) by {
        assert forall k :: b <= k < |u| ==> (IsSpace(u[k]) <==> IsSpace(v[k]));
        assert forall k :: 0 <= k < |u| - b ==> u[b..][k] == u[b + k] && v[b..][k] == v[b + k];
      }
    }
  }

  lemma MatchSpanIgnoreCase(s: string, t: string, i: int, j: int)
    requires Lower(s) == Lower(t)
    ensures MatchSpan(s, i, j) <==> MatchSpan(t, i, j)
  {
    if 0 <= i < j <= |s| {
      LowerSlice(s, i, j);
      LowerSlice(t, i, j);
      forall a, b ensures ShapeCuts(s[i..j], a, b) <==> ShapeCuts(t[i..j], a, b) {
        ShapeCutsIgnoreCase(s[i..j], t[i..j], a, b);
      }
      LowerKeepsSpace(s);
      LowerKeepsSpace(t);
    }
  }

  /** Matching ignores ASCII letter case: texts that agree once lower-cased give the same match. */
  lemma FindSpanIgnoresCase(s: string, t: string)
    requires Lower(s) == Lower(t)
    ensures FindSpan(s) == FindSpan(t)
  {
    forall a, b ensures MatchSpan(s, a, b) <==> MatchSpan(t, a, b) {
      MatchSpanIgnoreCase(s, t, a, b);
    }
    FindSpanSpec(s);
    FindSpanSpec(t);
    if FindSpan(s).Some? {
      FindSpanIs(t, FindSpan(s).value.0, FindSpan(s).value.1);
    }
  }

  /** Lower-casing the message lower-cases the extracted link and changes nothing else. */
  lemma FindUrlOfLower(s: string)
    ensures FindUrl(Lower(s)) == if FindUrl(s).None? then None else Some(Lower(FindUrl(s).value))
  {
    LowerIsLowercase(s);
    FindSpanIgnoresCase(s, Lower(s));
    match FindSpan(s)
    case None =>
    case Some(span) =>
      FindSpanSpec(s);
      LowerSlice(s, span.0, span.1);
      assert FindUrl(s) == Some(s[span.0..span.1]);
      assert FindUrl(Lower(s)) == Some(Lower(s)[span.0..span.1]);
  }
}
