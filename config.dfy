/**
 * The two access settings read from the environment at start-up:
 * `ONLY_PRIVATE` (a boolean, on unless it reads `0`, `false` or `no`) and
 * `ALLOWED_CHATS` (a comma-separated allow-list of conversation keys).
 */
module Config {
  import opened Text

  /** The settings the access filter consults, fixed for the life of the process. */
  datatype Settings = Settings(onlyPrivate: bool, allowed: set<string>)

  /** `os.getenv(name, default)`: the environment's value when the variable is set, even to the empty string. */
  function Getenv(env: map<string, string>, name: string, default: string): (v: string) {
    if name in env then env[name] else default
  }

  /** The words that switch private-only mode off, after stripping and lower-casing. */
  predicate IsFalseWord(w: string) {
    w == "0" || w == "false" || w == "no"
  }

  /** `ONLY_PRIVATE` from its raw value. */
  function OnlyPrivateFlag(raw: string): (on: bool) {
    !IsFalseWord(Lower(Strip(raw)))
  }

  /** `ALLOWED` from the raw `ALLOWED_CHATS` value: the stripped, lower-cased non-blank items. */
  function AllowedSet(raw: string): (allowed: set<string>) {
    set p | p in Split(raw, ',') && Strip(p) != [] :: Lower(Strip(p))
  }

  function Load(env: map<string, string>): (cfg: Settings) {
    Settings(OnlyPrivateFlag(Getenv(env, "ONLY_PRIVATE", "true")),
             AllowedSet(Getenv(env, "ALLOWED_CHATS", "")))
  }

  /** An unset `ONLY_PRIVATE` means private-only mode. */
  lemma OnlyPrivateDefault(env: map<string, string>)
    requires "ONLY_PRIVATE" !in env
    ensures Load(env).onlyPrivate
  {
    assert "true" == [] + "true" + [];
    StripPadded([], "true", []);
    LowerOfLowercase("true");
  }

  /** `raw` is a switch-off word in any letter case with whitespace around it, cut at `a` and `b`. */
  predicate PaddedFalseWord(raw: string, a: int, b: int) {
    0 <= a <= b <= |raw| && AllSpace(raw[..a]) && AllSpace(raw[b..]) && IsFalseWord(Lower(raw[a..b]))
  }

  /**
   * `ONLY_PRIVATE` is off exactly when its raw value is `0`, `false` or `no`
   * in any letter case, surrounded by nothing but whitespace.
   */
  lemma OnlyPrivateFlagFalseIff(raw: string)
    ensures !OnlyPrivateFlag(raw) <==> exists a, b :: PaddedFalseWord(raw, a, b)
  {
    if !OnlyPrivateFlag(raw) {
      var a, b := StripIsInfix(raw);
      assert PaddedFalseWord(raw, a, b);
    }
    if exists a, b :: PaddedFalseWord(raw, a, b) {
      var a, b :| PaddedFalseWord(raw, a, b);
      PaddedFalseWordIsOff(raw, a, b);
    }
  }

  lemma PaddedFalseWordIsOff(raw: string, a: int, b: int)
    requires PaddedFalseWord(raw, a, b)
    ensures !OnlyPrivateFlag(raw)
  {
    var w := raw[a..b];
    var l := Lower(w);
    LowerKeepsSpace(w);
    assert l != [] && !IsSpace(l[0]) && !IsSpace(l[|l| - 1]);
    assert !IsSpace(w[0]) && !IsSpace(w[|w| - 1]);
    assert raw == raw[..a] + w + raw[b..];
    StripPadded(raw[..a], w, raw[b..]);
  }

  /** Every allow-list entry is non-empty, lower-case and without surrounding whitespace. */
  lemma AllowedSetEntries(raw: string, e: string)
    requires e in AllowedSet(raw)
    ensures e != []
    ensures Lower(e) == e
    ensures Strip(e) == e
  {
    var p :| p in Split(raw, ',') && Strip(p) != [] && e == Lower(Strip(p));
    LowerIsLowercase(Strip(p));
    StripIdempotent(p);
    StripLower(Strip(p));
  }

  /** Writing clean entries back as a comma-separated list and parsing it again gives exactly those entries. */
  lemma AllowedSetOfJoin(entries: seq<string>)
    requires |entries| >= 1
    requires forall k :: 0 <= k < |entries| ==> entries[k] != [] && ',' !in entries[k]
    requires forall k :: 0 <= k < |entries| ==> Lower(entries[k]) == entries[k] && Strip(entries[k]) == entries[k]
    ensures AllowedSet(Join(entries, ',')) == set k | 0 <= k < |entries| :: entries[k]
  {
    SplitJoin(entries, ',');
    var r := AllowedSet(Join(entries, ','));
    forall e | e in r ensures exists k :: 0 <= k < |entries| && entries[k] == e {
      var p :| p in entries && Strip(p) != [] && e == Lower(Strip(p));
      var k :| 0 <= k < |entries| && entries[k] == p;
    }
    forall k | 0 <= k < |entries| ensures entries[k] in r {
      assert entries[k] in Split(Join(entries, ','), ',');
    }
  }

  /** An item of the comma-separated list, once stripped and lower-cased, is an entry of the allow-list. */
  lemma AllowedSetHasItem(raw: string, k: nat)
    requires k < |Split(raw, ',')| && Strip(Split(raw, ',')[k]) != []
    ensures Lower(Strip(Split(raw, ',')[k])) in AllowedSet(raw)
  {
  }

  predicate OnlySeparators(raw: string) {
    forall i :: 0 <= i < |raw| ==> raw[i] == ',' || IsSpace(raw[i])
  }

  /** The allow-list is empty exactly when the raw value holds only commas and whitespace. */
  lemma AllowedSetEmptyIff(raw: string)
    ensures AllowedSet(raw) == {} <==> OnlySeparators(raw)
  {
    if AllowedSet(raw) == {} {
      forall i | 0 <= i < |raw| ensures raw[i] == ',' || IsSpace(raw[i]) {
        if raw[i] != ',' {
          EmptyAllowedHasNoWordChar(raw, i);
        }
      }
    } else {
      var e :| e in AllowedSet(raw);
      var p :| p in Split(raw, ',') && Strip(p) != [] && e == Lower(Strip(p));
      NonBlankItemHasWordChar(raw, p);
    }
  }

  lemma EmptyAllowedHasNoWordChar(raw: string, i: nat)
    requires AllowedSet(raw) == {} && i < |raw| && raw[i] != ','
    ensures IsSpace(raw[i])
  {
    var parts := Split(raw, ',');
    assert raw[i] in Join(parts, ',');
    JoinChars(parts, ',', raw[i]);
    var k :| 0 <= k < |parts| && raw[i] in parts[k];
    if Strip(parts[k]) != [] {
      AllowedSetHasItem(raw, k);
    }
    assert AllSpace(parts[k]);
  }

  lemma NonBlankItemHasWordChar(raw: string, p: string)
    requires p in Split(raw, ',') && Strip(p) != []
    ensures !OnlySeparators(raw)
  {
    var parts := Split(raw, ',');
    var m :| 0 <= m < |p| && !IsSpace(p[m]);
    var k :| 0 <= k < |parts| && parts[k] == p;
    assert p[m] in parts[k];
    JoinChars(parts, ',', p[m]);
    assert p[m] in raw;
    var i :| 0 <= i < |raw| && raw[i] == p[m];
    assert p[m] != ',';
  }

  lemma AllowedSetUnset(env: map<string, string>)
    requires "ALLOWED_CHATS" !in env
    ensures Load(env).allowed == {}
  {
    AllowedSetEmptyIff("");
  }
}
