/**
 * Runtime configuration helpers: the process-wide option table, the
 * `a:b` substitution specs, and the four-byte version stamp.
 *
 * The option table is a global dict in the source; here it is passed in
 * and returned as a value, `None` standing for "not yet initialised".
 */
module RuntimeConfig {
  import opened Wrappers
  import opened Text

  /** `InvalidStateException` with its message. */
  datatype ConfigError = InvalidState(message: string)

  const NotInitialized: string := "DistAlgo is not initialized."

  type Options<V> = Option<map<string, V>>

  /**
   * `get_runtime_option(key, default)`: the configured value, else the
   * default. An uninitialised table is an error only when no default is given.
   */
  function GetRuntimeOption<V>(options: Options<V>, key: string, default: Option<V>): (r: Result<Option<V>, ConfigError>)
    ensures r.Failure? <==> options.None? && default.None?
    ensures r.Failure? ==> r.error == InvalidState(NotInitialized)
    ensures r.Success? && r.value.Some? ==>
              (options.Some? && key in options.value && r.value.value == options.value[key]) ||
              (r.value == default && (options.None? || key !in options.value))
    ensures r.Success? && r.value.None? ==> default.None? && options.Some? && key !in options.value
  {
    match options
    case None => if default.None? then Failure(InvalidState(NotInitialized)) else Success(default)
    case Some(table) => Success(if key in table then Some(table[key]) else default)
  }

  /** `set_runtime_option(key, value)`: the updated table, or an error when uninitialised. */
  function SetRuntimeOption<V>(options: Options<V>, key: string, value: V): (r: Result<map<string, V>, ConfigError>)
    ensures r.Failure? <==> options.None?
    ensures r.Success? ==> r.value.Keys == options.value.Keys + {key}
  {
    match options
    case None => Failure(InvalidState(NotInitialized))
    case Some(table) => Success(table[key := value])
  }

  /** A value that was set reads back, whatever default is given; other keys keep theirs. */
  lemma GetAfterSet<V>(options: Options<V>, key: string, value: V, other: string, default: Option<V>)
    requires options.Some?
    ensures SetRuntimeOption(options, key, value).Success?
    ensures GetRuntimeOption(Some(SetRuntimeOption(options, key, value).value), key, default) == Success(Some(value))
    ensures other != key ==>
              GetRuntimeOption(Some(SetRuntimeOption(options, key, value).value), other, default) ==
              GetRuntimeOption(options, other, default)
  {
  }

  // ---------------------------------------------------------------------
  // Substitution specs "module:replacement"
  // ---------------------------------------------------------------------

  /** One `a:b` spec as its two parts, or `None` unless it holds exactly one `:`. */
  function SubstituteSpec(item: string): (r: Option<(string, string)>)
    ensures r.Some? <==> Count(item, ':') == 1
    ensures r.Some? ==> item == r.value.0 + ":" + r.value.1 && ':' !in r.value.0 && ':' !in r.value.1
  {
    var parts := Split(item, ':');
    if |parts| != 2 then None
    else
      JoinTwo(parts, ':');
      Some((parts[0], parts[1]))
  }

  function UnrecognizedSpec(item: string): ConfigError
  {
    InvalidState("unrecognized substitute spec: " + item)
  }

  /**
   * What `_parse_items` computes for a list of specs: the specs applied in
   * order, a later spec for the same key overriding an earlier one, and the
   * first malformed spec reported.
   */
  function Substitutions(items: seq<string>): Result<map<string, string>, ConfigError>
  {
    if |items| == 0 then Success(map[])
    else
      var prior := Substitutions(items[..|items| - 1]);
      var last := items[|items| - 1];
      if prior.Failure? then prior
      else match SubstituteSpec(last)
        case None => Failure(UnrecognizedSpec(last))
        case Some((k, v)) => Success(prior.value[k := v])
  }

  /** `_parse_items(items)`, over an optional list as the source accepts `None`. */
  method ParseItems(items: Option<seq<string>>) returns (r: Result<map<string, string>, ConfigError>)
    ensures items.None? ==> r == Success(map[])
    ensures items.Some? ==> r == Substitutions(items.value)
  {
    var subs: map<string, string> := map[];
    if items.Some? {
      var specs := items.value;
      var i := 0;
      while i < |specs|
        invariant 0 <= i <= |specs|
        invariant Substitutions(specs[..i]) == Success(subs)
      {
        assert specs[..i + 1][..i] == specs[..i];
        var parts := Split(specs[i], ':');
        if |parts| != 2 {
          SubstitutionsFailurePersists(specs, i + 1);
          assert specs[..|specs|] == specs;
          return Failure(UnrecognizedSpec(specs[i]));
        }
        subs := subs[parts[0] := parts[1]];
        i := i + 1;
      }
      assert specs[..i] == specs;
    }
    return Success(subs);
  }

  /** Once a prefix has failed, every longer prefix fails with the same error. */
  lemma {:induction false} SubstitutionsFailurePersists(items: seq<string>, n: nat)
    requires 1 <= n <= |items|
    requires Substitutions(items[..n]).Failure?
    ensures Substitutions(items) == Substitutions(items[..n])
    decreases |items| - n
  {
    if n < |items| {
      assert items[..n + 1][..n] == items[..n];
      SubstitutionsFailurePersists(items, n + 1);
    } else {
      assert items[..n] == items;
    }
  }

  /** The result is an error exactly when some spec is malformed, and then it names the first one. */
  lemma {:induction false} SubstitutionsFailure(items: seq<string>)
    ensures Substitutions(items).Failure? <==> exists i :: 0 <= i < |items| && SubstituteSpec(items[i]).None?
    ensures Substitutions(items).Failure? ==>
              exists i :: 0 <= i < |items| && SubstituteSpec(items[i]).None? &&
                          Substitutions(items).error == UnrecognizedSpec(items[i]) &&
                          forall j :: 0 <= j < i ==> SubstituteSpec(items[j]).Some?
  {
    if |items| > 0 {
      var pre := items[..|items| - 1];
      SubstitutionsFailure(pre);
      assert forall i :: 0 <= i < |pre| ==> pre[i] == items[i];
      if Substitutions(pre).Failure? {
        var i :| 0 <= i < |pre| && SubstituteSpec(pre[i]).None? &&
                 Substitutions(pre).error == UnrecognizedSpec(pre[i]) &&
                 forall j :: 0 <= j < i ==> SubstituteSpec(pre[j]).Some?;
        assert SubstituteSpec(items[i]).None?;
      }
    }
  }

  /** The left part of a well-formed spec. */
  function SpecKey(item: string): string
    requires SubstituteSpec(item).Some?
  {
    SubstituteSpec(item).value.0
  }

  /** The right part of a well-formed spec. */
  function SpecValue(item: string): string
    requires SubstituteSpec(item).Some?
  {
    SubstituteSpec(item).value.1
  }

  ghost predicate AllSpecsValid(items: seq<string>)
  {
    forall i :: 0 <= i < |items| ==> SubstituteSpec(items[i]).Some?
  }

  /** On success the keys are exactly the specs' left parts. */
  lemma {:induction false} SubstitutionsKeys(items: seq<string>)
    requires Substitutions(items).Success?
    ensures AllSpecsValid(items)
    ensures forall k :: k in Substitutions(items).value <==>
              exists i :: 0 <= i < |items| && SpecKey(items[i]) == k
  {
    if |items| > 0 {
      var pre := items[..|items| - 1];
      SubstitutionsKeys(pre);
      assert forall i :: 0 <= i < |pre| ==> pre[i] == items[i];
      forall k | k in Substitutions(items).value
        ensures exists i :: 0 <= i < |items| && SpecKey(items[i]) == k
      {
        if k != SpecKey(items[|items| - 1]) {
          var i :| 0 <= i < |pre| && SpecKey(pre[i]) == k;
          assert SpecKey(items[i]) == k;
        }
      }
    }
  }

  /** On success each key maps to the right part of the LAST spec that names it. */
  lemma {:induction false} SubstitutionsLastWins(items: seq<string>, i: nat)
    requires Substitutions(items).Success?
    requires i < |items|
    requires AllSpecsValid(items)
    requires forall j :: i < j < |items| ==> SpecKey(items[j]) != SpecKey(items[i])
    ensures SpecKey(items[i]) in Substitutions(items).value
    ensures Substitutions(items).value[SpecKey(items[i])] == SpecValue(items[i])
  {
    var pre := items[..|items| - 1];
    if i < |items| - 1 {
      assert Substitutions(pre).Success?;
      assert pre[i] == items[i];
      assert forall j :: i < j < |pre| ==> pre[j] == items[j];
      assert forall j :: 0 <= j < |pre| ==> pre[j] == items[j];
      SubstitutionsLastWins(pre, i);
    }
  }

  // ---------------------------------------------------------------------
  // Version stamp
  // ---------------------------------------------------------------------

  const MajorVersion: int := 1
  const MinorVersion: int := 1
  const PatchVersion: int := 2
  const PrereleaseVersion: string := "rc16"

  /** `sum(ord(c) for c in s)`. */
  function CharSum(s: string): nat
  {
    if |s| == 0 then 0 else CharSum(s[..|s| - 1]) + s[|s| - 1] as int
  }

  /** The 32-bit number packed by `_version_as_bytes` before `to_bytes`. */
  function VersionNumber(major: int, minor: int, patch: int, prerelease: string): nat
  {
    // `x & 0xff` on a Python int is `x` modulo 256, also for negative `x`.
    (major % 256) * 0x100_0000 + (minor % 256) * 0x1_0000 + (patch % 256) * 0x100 + CharSum(prerelease) % 256
  }

  /** `int.to_bytes(4, 'big')` for a number below 2^32. */
  function BigEndian4(v: nat): (r: seq<byte>)
    requires v < 0x1_0000_0000
    ensures |r| == 4
    ensures r[0] as int * 0x100_0000 + r[1] as int * 0x1_0000 + r[2] as int * 0x100 + r[3] as int == v
  {
    var b0, r0 := v / 0x100_0000, v % 0x100_0000;
    var b1, r1 := r0 / 0x1_0000, r0 % 0x1_0000;
    var b2, b3 := r1 / 0x100, r1 % 0x100;
    [b0, b1, b2, b3]
  }

  /** `_version_as_bytes`: major, minor and patch low bytes, then the prerelease character sum mod 256. */
  function VersionAsBytes(major: int, minor: int, patch: int, prerelease: string): (r: seq<byte>)
    ensures |r| == 4
    ensures r[0] == major % 256 && r[1] == minor % 256 && r[2] == patch % 256
    ensures r[3] == CharSum(prerelease) % 256
  {
    var v := VersionNumber(major, minor, patch, prerelease);
    var r := BigEndian4(v);
    BigEndianDigits(major % 256, minor % 256, patch % 256, CharSum(prerelease) % 256, r);
    r
  }

  /** Four base-256 digits are determined by the number they spell. */
  lemma BigEndianDigits(a: nat, b: nat, c: nat, d: nat, r: seq<byte>)
    requires a < 256 && b < 256 && c < 256 && d < 256 && |r| == 4
    requires r[0] as int * 0x100_0000 + r[1] as int * 0x1_0000 + r[2] as int * 0x100 + r[3] as int ==
             a * 0x100_0000 + b * 0x1_0000 + c * 0x100 + d
    ensures r[0] == a && r[1] == b && r[2] == c && r[3] == d
  {
  }

  /** `VERSION_BYTES` for version 1.1.2rc16: "rc16" sums to 316, which is 60 modulo 256. */
  lemma VersionBytesValue()
    ensures VersionAsBytes(MajorVersion, MinorVersion, PatchVersion, PrereleaseVersion) == [1, 1, 2, 60]
  {
    assert CharSum("r") == 114 by { assert "r"[..0] == ""; }
    assert CharSum("rc") == 213 by { assert "rc"[..1] == "r"; }
    assert CharSum("rc1") == 262 by { assert "rc1"[..2] == "rc"; }
    assert CharSum("rc16") == 316 by { assert "rc16"[..3] == "rc1"; }
  }
}
