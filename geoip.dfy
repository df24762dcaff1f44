/**
 * The GeoIP route predicate: load-time option parsing (`InitPredicate`),
 * per-route argument parsing (`GeoipSpec.Create`) and the per-request
 * decision (`GeoipPredicate.Match`).
 *
 * The MaxMind reader, the opening of the database file and the extraction
 * of the client address from a request are foreign code; they enter the
 * model as function values (`Reader.lookup`, the `open` parameter of
 * `InitPredicate`, `AddressSource`).
 */
module GeoIP {
  import opened Wrappers
  import opened GoStrings
  import opened GoStrconv

  const DbPrefix: string := "db="
  const FromLastPrefix: string := "from_last="
  const Unknown: string := "UNKNOWN"

  /** An IP address, the bytes of a Go `net.IP` (the empty sequence for nil). */
  type Address = seq<bv8>

  /**
   * What one lookup leaves behind: the ISO code decoded into the record
   * (empty when the database has none) and the error it returned, if any.
   */
  datatype LookupResult = LookupResult(isoCode: string, err: Option<string>)

  /** An open MaxMind reader, seen only through its lookup. */
  datatype Reader = Reader(lookup: Address -> LookupResult)

  /** The two ways the host failure of `InitPredicate` can arise. */
  datatype InitError = MissingDbParameter | OpenFailed(path: string, cause: string)
  {
    /** The text of the Go error value. */
    function Message(): string
    {
      match this
      case MissingDbParameter => "missing db= parameter for geoip plugin"
      case OpenFailed(path, cause) => "failed to open db " + path + ": " + cause
    }
  }

  /** `predicates.ErrInvalidPredicateParameters`, the only error of `Create`. */
  datatype PredicateError = ErrInvalidPredicateParameters

  /** One route argument: a string, or a value of any other type. */
  datatype Arg = Str(s: string) | Other

  /** The two client-address helpers: `RemoteHost` and `RemoteHostFromLast`. */
  datatype AddressSource<!R> = AddressSource(remoteHost: R -> Address, remoteHostFromLast: R -> Address)

  // ---------------------------------------------------------------------
  // Load time: the db= option
  // ---------------------------------------------------------------------

  /** The suffix after `db=` of the last option having that prefix, "" when none has. */
  function LastDb(opts: seq<string>): (path: string)
    ensures path != "" ==> exists k :: IsLastDbOption(opts, k) && path == opts[k][3..]
  {
    if opts == [] then ""
    else if HasPrefix(opts[|opts| - 1], DbPrefix) then opts[|opts| - 1][3..]
    else LastDb(opts[..|opts| - 1])
  }

  /** No option starts with `db=`. */
  ghost predicate NoDbOption(opts: seq<string>)
  {
    forall j :: 0 <= j < |opts| ==> !HasPrefix(opts[j], DbPrefix)
  }

  /** `opts[k]` is the last option that starts with `db=`. */
  ghost predicate IsLastDbOption(opts: seq<string>, k: int)
  {
    && 0 <= k < |opts|
    && HasPrefix(opts[k], DbPrefix)
    && forall j :: k < j < |opts| ==> !HasPrefix(opts[j], DbPrefix)
  }

  /** Without any `db=` option there is no path. */
  lemma {:induction false} LastDbNone(opts: seq<string>)
    requires NoDbOption(opts)
    ensures LastDb(opts) == ""
  {
    if opts != [] {
      LastDbNone(opts[..|opts| - 1]);
    }
  }

  /** The path is the suffix of the last `db=` option; earlier ones are overwritten. */
  lemma {:induction false} LastDbIsLastOption(opts: seq<string>, k: int)
    requires IsLastDbOption(opts, k)
    ensures LastDb(opts) == opts[k][3..]
  {
    if k != |opts| - 1 {
      var init := opts[..|opts| - 1];
      assert IsLastDbOption(init, k);
      LastDbIsLastOption(init, k);
    }
  }

  /** An option without the `db=` prefix, wherever it stands, has no effect. */
  lemma {:induction false} LastDbIgnoresOthers(before: seq<string>, o: string, after: seq<string>)
    requires !HasPrefix(o, DbPrefix)
    ensures LastDb(before + [o] + after) == LastDb(before + after)
  {
    if after == [] {
      assert (before + [o] + after)[..|before| + 1 - 1] == before;
      assert before + after == before;
    } else {
      var init := after[..|after| - 1];
      assert (before + [o] + after)[..|before + [o] + after| - 1] == before + [o] + init;
      assert (before + after)[..|before + after| - 1] == before + init;
      LastDbIgnoresOthers(before, o, init);
    }
  }

  /**
   * The path is empty exactly when no option starts with `db=` or the last
   * such option has nothing after the prefix (whatever earlier ones said).
   */
  lemma LastDbEmptyIff(opts: seq<string>)
    ensures LastDb(opts) == "" <==>
      NoDbOption(opts) || exists k :: IsLastDbOption(opts, k) && |opts[k]| == 3
  {
    if NoDbOption(opts) {
      LastDbNone(opts);
    } else {
      var j :| 0 <= j < |opts| && HasPrefix(opts[j], DbPrefix);
      var k := LastPrefixed(opts, j);
      LastDbIsLastOption(opts, k);
      forall k' | IsLastDbOption(opts, k') ensures k' == k { }
    }
  }

  /** The index of the last `db=` option, given that one exists at or after `j`. */
  function LastPrefixed(opts: seq<string>, j: int): (k: int)
    requires 0 <= j < |opts| && HasPrefix(opts[j], DbPrefix)
    ensures IsLastDbOption(opts, k) && j <= k
    decreases |opts| - j
  {
    if forall i :: j < i < |opts| ==> !HasPrefix(opts[i], DbPrefix) then j
    else
      var i :| j < i < |opts| && HasPrefix(opts[i], DbPrefix);
      LastPrefixed(opts, i)
  }

  /** A non-empty earlier path does not rescue an empty last `db=`. */
  lemma EmptyLastDbWins()
    ensures LastDb(["db=/var/geo.mmdb", "db="]) == ""
  {
  }

  /**
   * `InitPredicate`: scans the options for `db=`, keeping the last one; fails
   * with the missing-parameter error when that leaves an empty path, without
   * calling `open`; otherwise opens the path and wraps the reader in a spec
   * named "GeoIP". The ghost `openedPath` is bookkeeping set next to the call
   * of `open`: the path handed to it, `None` when the call is skipped.
   */
  method InitPredicate(opts: seq<string>, open: string -> Result<Reader, string>)
    returns (r: Result<GeoipSpec, InitError>, ghost openedPath: Option<string>)
    ensures LastDb(opts) == "" ==> r == Failure(MissingDbParameter) && openedPath == None
    ensures LastDb(opts) != "" ==> openedPath == Some(LastDb(opts))
    ensures LastDb(opts) != "" && open(LastDb(opts)).Failure? ==>
      r == Failure(OpenFailed(LastDb(opts), open(LastDb(opts)).error))
    ensures LastDb(opts) != "" && open(LastDb(opts)).Success? ==>
      r == Success(GeoipSpec(open(LastDb(opts)).value))
    ensures r.Success? ==> r.value.Name() == "GeoIP"
    ensures r.Failure? && LastDb(opts) == "" ==>
      r.error.Message() == "missing db= parameter for geoip plugin"
    ensures r.Failure? && LastDb(opts) != "" ==>
      r.error.Message() == "failed to open db " + LastDb(opts) + ": " + open(LastDb(opts)).error
  {
    var db := "";
    for i := 0 to |opts|
      invariant db == LastDb(opts[..i])
    {
      assert opts[..i + 1][..i] == opts[..i];
      if HasPrefix(opts[i], DbPrefix) {
        db := opts[i][3..];
      }
    }
    assert opts[..|opts|] == opts;
    if db == "" {
      return Failure(MissingDbParameter), None;
    }
    openedPath := Some(db);
    var reader := open(db);
    if reader.Failure? {
      return Failure(OpenFailed(db, reader.error)), openedPath;
    }
    return Success(GeoipSpec(reader.value)), openedPath;
  }

  // ---------------------------------------------------------------------
  // Route compile time: the predicate arguments
  // ---------------------------------------------------------------------

  /** A string argument starting with `from_last=`. */
  predicate IsFlag(a: Arg)
  {
    a.Str? && HasPrefix(a.s, FromLastPrefix)
  }

  /** Any other string argument: a country code. */
  predicate IsCountryArg(a: Arg)
  {
    a.Str? && !HasPrefix(a.s, FromLastPrefix)
  }

  /** `strconv.ParseBool` of what follows `from_last=`. */
  function FlagValue(a: Arg): Option<bool>
    requires IsFlag(a)
  {
    ParseBool(a.s[10..])
  }

  /** Some `from_last=` argument does not carry a boolean literal. */
  ghost predicate HasInvalidFlag(config: seq<Arg>)
  {
    exists i :: 0 <= i < |config| && IsFlag(config[i]) && FlagValue(config[i]).None?
  }

  /** No argument is a `from_last=` string. */
  ghost predicate NoFlag(config: seq<Arg>)
  {
    forall j :: 0 <= j < |config| ==> !IsFlag(config[j])
  }

  /**
   * The `fromLast` value left by the arguments: that of the last `from_last=`
   * argument (false, as Go's ParseBool returns, for a literal it refuses),
   * false when there is none.
   */
  function LastFlag(config: seq<Arg>): (fromLast: bool)
    ensures fromLast ==>
      exists k :: 0 <= k < |config| && IsFlag(config[k]) && FlagValue(config[k]) == Some(true)
  {
    if config == [] then false
    else if IsFlag(config[|config| - 1]) then FlagValue(config[|config| - 1]) == Some(true)
    else LastFlag(config[..|config| - 1])
  }

  /** The upper-cased country strings of the arguments. */
  function Countries(config: seq<Arg>): (countries: set<string>)
    ensures forall x :: x in countries ==> NoLower(x)
  {
    if config == [] then {}
    else
      var a := config[|config| - 1];
      Countries(config[..|config| - 1]) + if IsCountryArg(a) then {ToUpper(a.s)} else {}
  }

  /** The configured set holds `x` exactly when some country argument upper-cases to `x`. */
  lemma {:induction false} CountriesMembers(config: seq<Arg>, x: string)
    ensures x in Countries(config) <==>
      exists i :: 0 <= i < |config| && IsCountryArg(config[i]) && ToUpper(config[i].s) == x
  {
    if config != [] {
      var init := config[..|config| - 1];
      CountriesMembers(init, x);
      if x in Countries(config) && x !in Countries(init) {
        assert IsCountryArg(config[|config| - 1]) && ToUpper(config[|config| - 1].s) == x;
      }
      if i :| 0 <= i < |config| && IsCountryArg(config[i]) && ToUpper(config[i].s) == x {
        if i < |config| - 1 {
          assert init[i] == config[i];
        }
      }
    }
  }

  /** Every configured country is upper-case, a fixed point of `ToUpper`. */
  lemma CountriesUpper(config: seq<Arg>, x: string)
    requires x in Countries(config)
    ensures NoLower(x) && ToUpper(x) == x
  {
    CountriesMembers(config, x);
    ToUpperFixedPoint(x);
  }

  /** Without `from_last=` arguments the flag is false. */
  lemma {:induction false} LastFlagNone(config: seq<Arg>)
    requires NoFlag(config)
    ensures !LastFlag(config)
  {
    if config != [] {
      LastFlagNone(config[..|config| - 1]);
    }
  }

  /** Otherwise the flag is the parsed value of the last `from_last=` argument. */
  lemma {:induction false} LastFlagIsLast(config: seq<Arg>, k: int)
    requires 0 <= k < |config| && IsFlag(config[k])
    requires forall j :: k < j < |config| ==> !IsFlag(config[j])
    ensures LastFlag(config) == (FlagValue(config[k]) == Some(true))
  {
    if k != |config| - 1 {
      var init := config[..|config| - 1];
      assert init[k] == config[k];
      LastFlagIsLast(init, k);
    }
  }

  /** A non-string argument, wherever it stands, adds no country. */
  lemma {:induction false} OtherAddsNoCountry(before: seq<Arg>, after: seq<Arg>)
    ensures Countries(before + [Other] + after) == Countries(before + after)
  {
    var c, d := before + [Other] + after, before + after;
    if after == [] {
      assert c[..|c| - 1] == before;
      assert d == before;
    } else {
      var init := after[..|after| - 1];
      assert c[..|c| - 1] == before + [Other] + init;
      assert d[..|d| - 1] == before + init;
      OtherAddsNoCountry(before, init);
    }
  }

  /** A non-string argument, wherever it stands, does not change the flag. */
  lemma {:induction false} OtherKeepsFlag(before: seq<Arg>, after: seq<Arg>)
    ensures LastFlag(before + [Other] + after) == LastFlag(before + after)
  {
    if after == [] {
      LastFlagSnoc(before, Other);
      assert before + [Other] + after == before + [Other];
      assert before + after == before;
    } else {
      var init, a := after[..|after| - 1], after[|after| - 1];
      assert before + [Other] + after == (before + [Other] + init) + [a];
      assert before + after == (before + init) + [a];
      LastFlagSnoc(before + [Other] + init, a);
      LastFlagSnoc(before + init, a);
      OtherKeepsFlag(before, init);
    }
  }

  /** One more argument: a country string adds its upper-cased form, anything else nothing. */
  lemma CountriesSnoc(init: seq<Arg>, a: Arg)
    ensures Countries(init + [a]) == Countries(init) + if IsCountryArg(a) then {ToUpper(a.s)} else {}
  {
    assert (init + [a])[..|init|] == init;
  }

  /** One more argument: a flag decides the value, anything else keeps it. */
  lemma LastFlagSnoc(init: seq<Arg>, a: Arg)
    ensures LastFlag(init + [a]) == if IsFlag(a) then FlagValue(a) == Some(true) else LastFlag(init)
  {
    assert (init + [a])[..|init|] == init;
  }

  /** A non-string argument, wherever it stands, cannot make construction fail. */
  lemma OtherCannotFail(before: seq<Arg>, after: seq<Arg>)
    ensures HasInvalidFlag(before + [Other] + after) == HasInvalidFlag(before + after)
  {
    var c, d := before + [Other] + after, before + after;
    if HasInvalidFlag(c) {
      var i :| 0 <= i < |c| && IsFlag(c[i]) && FlagValue(c[i]).None?;
      var i' := if i < |before| then i else i - 1;
      assert d[i'] == c[i];
    }
    if HasInvalidFlag(d) {
      var i :| 0 <= i < |d| && IsFlag(d[i]) && FlagValue(d[i]).None?;
      var i' := if i < |before| then i else i + 1;
      assert c[i'] == d[i];
    }
  }

  /** An invalid `from_last=` fails the construction even when a valid one follows. */
  lemma LaterFlagDoesNotRescue()
    ensures HasInvalidFlag([Str("from_last=maybe"), Str("from_last=true")])
  {
    var c := [Str("from_last=maybe"), Str("from_last=true")];
    assert IsFlag(c[0]) && c[0].s[10..] == "maybe";
  }

  /**
   * The typo `last_from=true` in the package's usage comment is no flag: it
   * becomes the country "LAST_FROM=TRUE", and the flag stays false. This is
   * one example; the literal is passed as a parameter fixed by the requires
   * so that the verifier does not unfold `ToUpper` on a constant.
   */
  lemma MisspelledFlagIsCountry(typo: string)
    requires typo == "last_from=true"
    ensures Countries([Str(typo)]) == {"LAST_FROM=TRUE"}
  {
    NotFlagPrefix(typo);
    CountriesSingle(typo);
    UpperTypo(typo);
  }

  /** ... and it leaves the address mode at its default. */
  lemma MisspelledFlagKeepsDefault()
    ensures !LastFlag([Str("last_from=true")])
  {
    assert !HasPrefix("last_from=true", FromLastPrefix) by {
      assert "last_from=true"[0] != FromLastPrefix[0];
    }
  }

  /**
   * The `from_last=` test is case-sensitive: an upper-case spelling is a
   * country. One example, its literal passed as a parameter as above.
   */
  lemma UpperCaseFlagIsCountry(arg: string)
    requires arg == "FROM_LAST=true"
    ensures Countries([Str(arg)]) == {"FROM_LAST=TRUE"}
  {
    NotFlagPrefix(arg);
    CountriesSingle(arg);
    UpperFlagSpelling(arg);
  }

  /** A string whose first character is not 'f' cannot start with `from_last=`. */
  lemma NotFlagPrefix(s: string)
    requires |s| > 0 && s[0] != 'f'
    ensures !HasPrefix(s, FromLastPrefix)
  {
    assert s[0] != FromLastPrefix[0];
  }

  /** A single country string gives a one-element set. */
  lemma CountriesSingle(s: string)
    requires !HasPrefix(s, FromLastPrefix)
    ensures Countries([Str(s)]) == {ToUpper(s)}
  {
    assert [Str(s)][..0] == [];
  }

  /** "last_from=true" upper-cased (one example; the literal is a parameter, as above). */
  lemma UpperTypo(typo: string)
    requires typo == "last_from=true"
    ensures ToUpper(typo) == "LAST_FROM=TRUE"
  {
    UpperExample(typo, "LAST_FROM=TRUE");
  }

  /** "FROM_LAST=true" upper-cased (one example; the literal is a parameter, as above). */
  lemma UpperFlagSpelling(arg: string)
    requires arg == "FROM_LAST=true"
    ensures ToUpper(arg) == "FROM_LAST=TRUE"
  {
    UpperExample(arg, "FROM_LAST=TRUE");
  }

  /** Checks a concrete upper-casing character by character. */
  lemma UpperExample(s: string, u: string)
    requires |s| == |u| && forall i :: 0 <= i < |s| ==> UpperChar(s[i]) == u[i]
    ensures ToUpper(s) == u
  {
  }

  /** The value `InitPredicate` returns: a handle on the opened database. */
  datatype GeoipSpec = GeoipSpec(db: Reader)
  {
    /** The name the host binds route syntax to. */
    function Name(): string
    {
      "GeoIP"
    }

    /**
     * `Create`: walks the arguments in order, skipping non-strings; a
     * `from_last=` argument sets the flag, or aborts with
     * `ErrInvalidPredicateParameters` when its value is no boolean literal;
     * every other string is upper-cased into the country set.
     */
    method Create(config: seq<Arg>) returns (r: Result<GeoipPredicate, PredicateError>)
      ensures r.Failure? <==> HasInvalidFlag(config)
      ensures r.Failure? ==> r.error == ErrInvalidPredicateParameters
      ensures r.Success? ==> r.value == GeoipPredicate(db, LastFlag(config), Countries(config))
    {
      var fromLast := false;
      var countries: set<string> := {};
      for i := 0 to |config|
        invariant !HasInvalidFlag(config[..i])
        invariant fromLast == LastFlag(config[..i])
        invariant countries == Countries(config[..i])
      {
        assert config[..i + 1] == config[..i] + [config[i]];
        LastFlagSnoc(config[..i], config[i]);
        CountriesSnoc(config[..i], config[i]);
        match config[i]
        case Str(s) =>
          if HasPrefix(s, FromLastPrefix) {
            var b := ParseBool(s[10..]);
            if b.None? {
              assert IsFlag(config[i]) && FlagValue(config[i]).None?;
              return Failure(ErrInvalidPredicateParameters);
            }
            fromLast := b.value;
          } else {
            countries := countries + {ToUpper(s)};
          }
        case Other =>
      }
      assert config[..|config|] == config;
      return Success(GeoipPredicate(db, fromLast, countries));
    }
  }

  /** Without `from_last=` arguments construction cannot fail. */
  lemma NoFlagNeverFails(config: seq<Arg>)
    requires NoFlag(config)
    ensures !HasInvalidFlag(config) && !LastFlag(config)
  {
    LastFlagNone(config);
  }

  // ---------------------------------------------------------------------
  // Request time: the match
  // ---------------------------------------------------------------------

  /** One route's predicate: shared reader, address mode and country set. */
  datatype GeoipPredicate = GeoipPredicate(db: Reader, fromLast: bool, countries: set<string>)
  {
    /** The client address: the last forwarded one when `fromLast`, the remote host otherwise. */
    function SourceAddress<R>(req: R, src: AddressSource<R>): Address
    {
      if fromLast then src.remoteHostFromLast(req) else src.remoteHost(req)
    }

    /** The looked-up code, "UNKNOWN" when empty; an error alone does not matter. */
    function ResolvedCode(rec: LookupResult): (code: string)
      ensures code != ""
      ensures rec.isoCode != "" ==> code == rec.isoCode
    {
      if rec.isoCode == "" then Unknown else rec.isoCode
    }

    /**
     * `Match`: the resolved code of the client address is a configured
     * country. An address without a code matches exactly when "UNKNOWN" is
     * configured, whether or not the lookup reported an error; a non-empty
     * code is tested as looked up, without upper-casing.
     */
    function Match<R>(req: R, src: AddressSource<R>): (ok: bool)
      ensures db.lookup(SourceAddress(req, src)).isoCode == "" ==> (ok <==> Unknown in countries)
      ensures db.lookup(SourceAddress(req, src)).isoCode != "" ==>
        (ok <==> db.lookup(SourceAddress(req, src)).isoCode in countries)
    {
      ResolvedCode(db.lookup(SourceAddress(req, src))) in countries
    }
  }

  /**
   * Only the extractor that `fromLast` selects matters: two address sources
   * that agree on it give the same decision.
   */
  lemma MatchUsesSelectedExtractor<R>(p: GeoipPredicate, req: R, src: AddressSource<R>, src': AddressSource<R>)
    requires p.fromLast ==> src.remoteHostFromLast(req) == src'.remoteHostFromLast(req)
    requires !p.fromLast ==> src.remoteHost(req) == src'.remoteHost(req)
    ensures p.Match(req, src) == p.Match(req, src')
  {
  }

  /** The lookup error is only logged: readers that agree on the code decide alike. */
  lemma MatchIgnoresLookupError<R>(p: GeoipPredicate, db': Reader, req: R, src: AddressSource<R>)
    requires db'.lookup(p.SourceAddress(req, src)).isoCode == p.db.lookup(p.SourceAddress(req, src)).isoCode
    ensures GeoipPredicate(db', p.fromLast, p.countries).Match(req, src) == p.Match(req, src)
  {
  }

  /**
   * For a predicate built from route arguments: it matches exactly when some
   * country argument upper-cases to the resolved code.
   */
  lemma CreatedMatchIff<R>(db: Reader, config: seq<Arg>, req: R, src: AddressSource<R>)
    ensures var p := GeoipPredicate(db, LastFlag(config), Countries(config));
      p.Match(req, src) <==>
        exists i :: 0 <= i < |config| && IsCountryArg(config[i]) &&
          ToUpper(config[i].s) == p.ResolvedCode(db.lookup(p.SourceAddress(req, src)))
  {
    var p := GeoipPredicate(db, LastFlag(config), Countries(config));
    CountriesMembers(config, p.ResolvedCode(db.lookup(p.SourceAddress(req, src))));
  }

  /** Since codes are not upper-cased, a code with a lower-case letter never matches. */
  lemma CreatedLowerCaseNeverMatches<R>(db: Reader, config: seq<Arg>, req: R, src: AddressSource<R>)
    requires var p := GeoipPredicate(db, LastFlag(config), Countries(config));
      !NoLower(db.lookup(p.SourceAddress(req, src)).isoCode)
    ensures !GeoipPredicate(db, LastFlag(config), Countries(config)).Match(req, src)
  {
    var p := GeoipPredicate(db, LastFlag(config), Countries(config));
    var code := db.lookup(p.SourceAddress(req, src)).isoCode;
    if code in Countries(config) {
      CountriesUpper(config, code);
    }
  }

  /** Route `GeoIP("de")`: an address the database maps to "DE" matches. */
  lemma ConfiguredLowerCaseMatchesUpperCode<R>(db: Reader, req: R, src: AddressSource<R>)
    requires db.lookup(src.remoteHost(req)).isoCode == "DE"
    ensures GeoipPredicate(db, LastFlag([Str("de")]), Countries([Str("de")])).Match(req, src)
  {
    assert !HasPrefix("de", FromLastPrefix);
    assert ToUpper("de") == "DE";
    assert Countries([Str("de")]) == {"DE"};
  }
}
