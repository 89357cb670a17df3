/**
 * The fixture-file names: `JsonFile` and `JsonAddressFile` build paths, the
 * `Addresses.COUNTRY` and `Addresses.STATE` enumerations bind each member to
 * its address file, and the resolver functions pick a file from an optional
 * country and an optional state.
 */
module Constants {
  import opened Results
  import opened Lists
  import ExtendedEnum
  import RandomUtils

  /** `str.lower()` on one character; only ASCII letters are modelled. */
  function LowerChar(c: char): char {
    if 'A' <= c <= 'Z' then (c as int + 32) as char else c
  }

  /**
   * `str.lower()`, character by character: a capital becomes the small letter
   * at the same position of the alphabet, and every other character stays.
   */
  function Lower(s: string): (r: string)
    ensures |r| == |s|
    ensures forall i :: 0 <= i < |s| && 'A' <= s[i] <= 'Z' ==>
              'a' <= r[i] <= 'z' && r[i] as int - 'a' as int == s[i] as int - 'A' as int
    ensures forall i :: 0 <= i < |s| && !('A' <= s[i] <= 'Z') ==> r[i] == s[i]
  {
    seq(|s|, i requires 0 <= i < |s| => LowerChar(s[i]))
  }

  /** Lowering a concatenation lowers each part. */
  lemma LowerAppend(a: string, b: string)
    ensures Lower(a + b) == Lower(a) + Lower(b)
  {
  }

  /** A string without upper-case ASCII letters is its own lower-case form. */
  lemma LowerFixesLowerCase(s: string)
    requires forall i :: 0 <= i < |s| ==> !('A' <= s[i] <= 'Z')
    ensures Lower(s) == s
  {
  }

  /** Lowering leaves no upper-case ASCII letter behind. */
  lemma LowerHasNoUpperCase(s: string)
    ensures forall i :: 0 <= i < |Lower(s)| ==> !('A' <= Lower(s)[i] <= 'Z')
  {
  }

  /** `JsonFile(file_name, parent_folder)`. */
  datatype JsonFile = JsonFile(fileName: string, parentFolder: string) {
    /** The `json_path` property: `{parent_folder}/{file_name.lower()}.min.json`. */
    function JsonPath(): string {
      parentFolder + "/" + Lower(fileName) + ".min.json"
    }
  }

  /** `JsonAddressFile(abbreviation, parent_folder)`, a `JsonFile` named `{abbreviation}-addresses`. */
  datatype JsonAddressFile = JsonAddressFile(abbreviation: string, parentFolder: string) {
    function AsJsonFile(): JsonFile {
      JsonFile(abbreviation + "-addresses", parentFolder)
    }

    /** The `address_file` property: `json/addresses/{json_path}`. */
    function AddressFile(): (r: string)
      ensures r == "json/addresses/" + parentFolder + "/" + Lower(abbreviation) + "-addresses.min.json"
    {
      LowerAppend(abbreviation, "-addresses");
      LowerFixesLowerCase("-addresses");
      "json/addresses/" + AsJsonFile().JsonPath()
    }
  }

  /**
   * `json_path` can be split back into its parts: the folder, a slash, the
   * file name in lower case, and the `.min.json` suffix.
   */
  lemma JsonPathParts(f: JsonFile)
    ensures var p := f.JsonPath();
      && |p| == |f.parentFolder| + |f.fileName| + 10
      && p[..|f.parentFolder|] == f.parentFolder
      && p[|f.parentFolder|] == '/'
      && p[|f.parentFolder| + 1..|p| - 9] == Lower(f.fileName)
      && p[|p| - 9..] == ".min.json"
      && forall i :: |f.parentFolder| < i < |p| - 9 ==> !('A' <= p[i] <= 'Z')
  {
    var p := f.JsonPath();
    var n := |f.parentFolder|;
    var name := Lower(f.fileName);
    assert p == f.parentFolder + "/" + name + ".min.json";
    assert p[..n] == f.parentFolder;
    assert p[n + 1..|p| - 9] == name;
    assert p[|p| - 9..] == ".min.json";
    forall i | n < i < |p| - 9 ensures !('A' <= p[i] <= 'Z') {
      assert p[i] == name[i - n - 1];
    }
  }

  lemma CancelPrefix(p: string, x: string, y: string)
    requires p + x == p + y
    ensures x == y
  {
    assert x == (p + x)[|p|..];
  }

  lemma CancelSuffix(x: string, y: string, q: string)
    requires x + q == y + q
    ensures x == y
  {
    assert x == (x + q)[..|x|];
  }

  /** In `f + "/" + x` with a slash-free `f`, the first slash is at position `|f|`. */
  lemma FirstSlashAt(f: string, x: string)
    requires '/' !in f
    ensures (f + "/" + x)[|f|] == '/'
    ensures forall k :: 0 <= k < |f| ==> (f + "/" + x)[k] != '/'
  {
    forall k | 0 <= k < |f| ensures (f + "/" + x)[k] != '/' {
      assert (f + "/" + x)[k] == f[k];
    }
  }

  /** The first `/` separates a folder name without slashes from the rest. */
  lemma SplitAtSlash(f: string, x: string, g: string, y: string)
    requires '/' !in f && '/' !in g
    requires f + "/" + x == g + "/" + y
    ensures f == g && x == y
  {
    FirstSlashAt(f, x);
    FirstSlashAt(g, y);
    assert |f| == |g|;
    assert f == (f + "/" + x)[..|f|];
    assert g == (g + "/" + y)[..|g|];
    CancelPrefix(f + "/", x, y);
  }

  /**
   * Two address files with slash-free folders are the same path only when
   * they have the same folder and the same lower-cased abbreviation.
   */
  lemma AddressFileInjective(a: JsonAddressFile, b: JsonAddressFile)
    requires '/' !in a.parentFolder && '/' !in b.parentFolder
    requires a.AddressFile() == b.AddressFile()
    ensures a.parentFolder == b.parentFolder
    ensures Lower(a.abbreviation) == Lower(b.abbreviation)
  {
    var prefix, suffix := "json/addresses/", "-addresses.min.json";
    var x := a.parentFolder + "/" + Lower(a.abbreviation);
    var y := b.parentFolder + "/" + Lower(b.abbreviation);
    assert prefix + x == prefix + a.parentFolder + "/" + Lower(a.abbreviation);
    assert prefix + y == prefix + b.parentFolder + "/" + Lower(b.abbreviation);
    CancelSuffix(prefix + x, prefix + y, suffix);
    CancelPrefix(prefix, x, y);
    SplitAtSlash(a.parentFolder, Lower(a.abbreviation), b.parentFolder, Lower(b.abbreviation));
  }

  /** `Addresses.COUNTRY`, in declaration order. */
  datatype Country =
    | UnitedStates | Canada | China | HongKong | UnitedKingdom | Germany | Spain | Mexico | Australia

  /** `Addresses.STATE`, in declaration order. */
  datatype State =
    | Arizona | California | Idaho | Kansas | Nevada | NewYork | Texas | Utah | Washington

  /** The `JsonAddressFile` each country member is bound to. */
  function CountryValue(c: Country): JsonAddressFile {
    match c
    case UnitedStates => JsonAddressFile("US", "united-states")
    case Canada => JsonAddressFile("BC", "canada")
    case China => JsonAddressFile("BJ", "china")
    case HongKong => JsonAddressFile("HK", "china")
    case UnitedKingdom => JsonAddressFile("UK", "europe")
    case Germany => JsonAddressFile("DE", "europe")
    case Spain => JsonAddressFile("ES", "europe")
    case Mexico => JsonAddressFile("MX", "mexico")
    case Australia => JsonAddressFile("VT", "australia")
  }

  /** The `JsonAddressFile` each state member is bound to. */
  function StateValue(s: State): JsonAddressFile {
    match s
    case Arizona => JsonAddressFile("AZ", "united-states")
    case California => JsonAddressFile("CA", "united-states")
    case Idaho => JsonAddressFile("ID", "united-states")
    case Kansas => JsonAddressFile("KS", "united-states")
    case Nevada => JsonAddressFile("NV", "united-states")
    case NewYork => JsonAddressFile("NY", "united-states")
    case Texas => JsonAddressFile("TX", "united-states")
    case Utah => JsonAddressFile("UT", "united-states")
    case Washington => JsonAddressFile("WA", "united-states")
  }

  /** The members of `Addresses.COUNTRY` in the order Python iterates over them. */
  function CountryMembers(): (r: seq<Country>)
    ensures |r| == 9 && Distinct(r)
  {
    [UnitedStates, Canada, China, HongKong, UnitedKingdom, Germany, Spain, Mexico, Australia]
  }

  /** The members of `Addresses.STATE` in the order Python iterates over them. */
  function StateMembers(): (r: seq<State>)
    ensures |r| == 9 && Distinct(r)
  {
    [Arizona, California, Idaho, Kansas, Nevada, NewYork, Texas, Utah, Washington]
  }

  /** `COUNTRY.values()` lists every country member. */
  lemma CountryMembersAreComplete()
    ensures forall c: Country :: c in CountryMembers()
  {
    forall c: Country ensures c in CountryMembers() {
      match c
      case UnitedStates => case Canada => case China => case HongKong => case UnitedKingdom =>
      case Germany => case Spain => case Mexico => case Australia =>
    }
  }

  /** `STATE.values()` lists every state member. */
  lemma StateMembersAreComplete()
    ensures forall s: State :: s in StateMembers()
  {
    forall s: State ensures s in StateMembers() {
      match s
      case Arizona => case California => case Idaho => case Kansas => case Nevada =>
      case NewYork => case Texas => case Utah => case Washington =>
    }
  }

  /** Both enumerations hold nine members without aliases, so the index round trips apply to them. */
  lemma EnumerationSizes()
    ensures ExtendedEnum.Amount(CountryMembers()) == 9 && ExtendedEnum.IsEnumeration(CountryMembers())
    ensures ExtendedEnum.Amount(StateMembers()) == 9 && ExtendedEnum.IsEnumeration(StateMembers())
  {
  }

  /**
   * `COUNTRY.values()` and `STATE.values()` list every member exactly once,
   * and `value_of_index(0)` is the first member declared.
   */
  lemma EnumerationValues()
    ensures |ExtendedEnum.Values(CountryMembers())| == 9 && Distinct(ExtendedEnum.Values(CountryMembers()))
    ensures forall c: Country :: c in ExtendedEnum.Values(CountryMembers())
    ensures ExtendedEnum.ValueOfIndex(CountryMembers(), 0) == Ok(UnitedStates)
    ensures |ExtendedEnum.Values(StateMembers())| == 9 && Distinct(ExtendedEnum.Values(StateMembers()))
    ensures forall s: State :: s in ExtendedEnum.Values(StateMembers())
    ensures ExtendedEnum.ValueOfIndex(StateMembers(), 0) == Ok(Arizona)
  {
    assert ExtendedEnum.Values(CountryMembers()) == CountryMembers();
    assert ExtendedEnum.Values(StateMembers()) == StateMembers();
    CountryMembersAreComplete();
    StateMembersAreComplete();
  }

  /** `get_state_address_file(state)`: every state file lies in the `united-states` folder. */
  function GetStateAddressFile(s: State): (r: string)
    ensures r == "json/addresses/" + "united-states" + "/" + Lower(StateValue(s).abbreviation) + "-addresses.min.json"
  {
    StateValue(s).AddressFile()
  }

  /** `get_country_address_file(country)`. */
  function GetCountryAddressFile(c: Country): (r: string)
    ensures r == "json/addresses/" + CountryValue(c).parentFolder + "/"
               + Lower(CountryValue(c).abbreviation) + "-addresses.min.json"
  {
    CountryValue(c).AddressFile()
  }

  /** The nine country files, in declaration order. */
  function CountryAddressFiles(): seq<string> {
    seq(9, i requires 0 <= i < 9 => GetCountryAddressFile(CountryMembers()[i]))
  }

  /** The nine state files, in declaration order. */
  function StateAddressFiles(): seq<string> {
    seq(9, i requires 0 <= i < 9 => GetStateAddressFile(StateMembers()[i]))
  }

  /** The eighteen files the two tables name. */
  function AllAddressFiles(): seq<string> {
    CountryAddressFiles() + StateAddressFiles()
  }

  /** Each country's file is one of the nine, at the country's own index. */
  lemma CountryFileListed(c: Country)
    ensures GetCountryAddressFile(c) in CountryAddressFiles()
  {
    CountryMembersAreComplete();
    var i := IndexOf(CountryMembers(), c).value;
    assert CountryAddressFiles()[i] == GetCountryAddressFile(c);
  }

  /** Each state's file is one of the nine, at the state's own index. */
  lemma StateFileListed(s: State)
    ensures GetStateAddressFile(s) in StateAddressFiles()
  {
    StateMembersAreComplete();
    var i := IndexOf(StateMembers(), s).value;
    assert StateAddressFiles()[i] == GetStateAddressFile(s);
  }

  /** `get_random_state_address_file()`: the file of `STATE.random()`. */
  function GetRandomStateAddressFile(raw: nat): (r: string)
    ensures r in StateAddressFiles()
  {
    match ExtendedEnum.Random(StateMembers(), raw)
    case Ok(s) =>
      StateFileListed(s);
      GetStateAddressFile(s)
    case Err(_) => assert false; ""
  }

  /** `get_random_country_address_file()`: the file of `COUNTRY.random()`. */
  function GetRandomCountryAddressFile(raw: nat): (r: string)
    ensures r in CountryAddressFiles()
  {
    match ExtendedEnum.Random(CountryMembers(), raw)
    case Ok(c) =>
      CountryFileListed(c);
      GetCountryAddressFile(c)
    case Err(_) => assert false; ""
  }

  /**
   * `get_random_address_file(country, state)`: the country's file if a
   * country is given, otherwise the state's file if a state is given,
   * otherwise the coin `get_random_boolean()` picks between a random country
   * file and a random state file.
   */
  function GetRandomAddressFile(country: Option<Country>, state: Option<State>, coin: nat, raw: nat): (r: string)
    ensures country.None? && state.None? ==> r in AllAddressFiles()
    ensures country.None? && state.None? && RandomUtils.GetRandomBoolean(coin) ==> r in CountryAddressFiles()
    ensures country.None? && state.None? && !RandomUtils.GetRandomBoolean(coin) ==> r in StateAddressFiles()
  {
    if country.Some? then GetCountryAddressFile(country.value)
    else if state.Some? then GetStateAddressFile(state.value)
    else if RandomUtils.GetRandomBoolean(coin) then GetRandomCountryAddressFile(raw)
    else GetRandomStateAddressFile(raw)
  }

  const MissingSelectorMessage := "Must specify either country or state"

  /**
   * `get_address_file(country, state)` as written: ValueError without either
   * argument; a random state file for the United States; otherwise the
   * country's file, so that a call with only a state reads `None.value`.
   */
  function GetAddressFile(country: Option<Country>, state: Option<State>, raw: nat): (r: Result<string>)
    ensures r.Err? <==> country.None?
    ensures country.None? && state.None? ==> r == Err(ValueError(MissingSelectorMessage))
    ensures country.None? && state.Some? ==> r == Err(NoneHasNoValue)
    ensures country == Some(UnitedStates) ==> r.Ok? && r.value in StateAddressFiles()
  {
    if country.None? && state.None? then Err(ValueError(MissingSelectorMessage))
    else if country == Some(UnitedStates) then Ok(GetRandomStateAddressFile(raw))
    else if country.None? then Err(NoneHasNoValue)
    else Ok(GetCountryAddressFile(country.value))
  }

  /**
   * `get_address_file` as its error message says it is meant to work: a
   * state alone resolves to that state's file.
   */
  function GetAddressFileCorrected(country: Option<Country>, state: Option<State>, raw: nat): (r: Result<string>)
    ensures r.Err? <==> country.None? && state.None?
    ensures r.Err? ==> r.error == ValueError(MissingSelectorMessage)
    ensures country == Some(UnitedStates) ==> r.Ok? && r.value in StateAddressFiles()
    ensures country.None? && state.Some? ==> r == Ok(GetStateAddressFile(state.value))
    ensures country.Some? && country.value != UnitedStates ==> r == Ok(GetCountryAddressFile(country.value))
  {
    if country.None? && state.None? then Err(ValueError(MissingSelectorMessage))
    else if country == Some(UnitedStates) then Ok(GetRandomStateAddressFile(raw))
    else if country.None? then Ok(GetStateAddressFile(state.value))
    else Ok(GetCountryAddressFile(country.value))
  }

  // Properties of the tables and of the resolvers.

  predicate IsUpperCase(s: string) {
    forall i :: 0 <= i < |s| ==> 'A' <= s[i] <= 'Z'
  }

  /** On upper-case strings `lower()` loses nothing. */
  lemma LowerInjectiveOnUpperCase(a: string, b: string)
    requires IsUpperCase(a) && IsUpperCase(b)
    requires Lower(a) == Lower(b)
    ensures a == b
  {
    forall i | 0 <= i < |a| ensures a[i] == b[i] {
      assert LowerChar(a[i]) == LowerChar(b[i]);
    }
  }

  /** The country member bound to a two-letter abbreviation, if any. */
  function CountryOfAbbreviation(a: string): Option<Country> {
    if |a| != 2 then None
    else
      match (a[0], a[1])
      case ('U', 'S') => Some(UnitedStates)
      case ('B', 'C') => Some(Canada)
      case ('B', 'J') => Some(China)
      case ('H', 'K') => Some(HongKong)
      case ('U', 'K') => Some(UnitedKingdom)
      case ('D', 'E') => Some(Germany)
      case ('E', 'S') => Some(Spain)
      case ('M', 'X') => Some(Mexico)
      case ('V', 'T') => Some(Australia)
      case _ => None
  }

  /** The state member bound to a two-letter abbreviation, if any. */
  function StateOfAbbreviation(a: string): Option<State> {
    if |a| != 2 then None
    else
      match (a[0], a[1])
      case ('A', 'Z') => Some(Arizona)
      case ('C', 'A') => Some(California)
      case ('I', 'D') => Some(Idaho)
      case ('K', 'S') => Some(Kansas)
      case ('N', 'V') => Some(Nevada)
      case ('N', 'Y') => Some(NewYork)
      case ('T', 'X') => Some(Texas)
      case ('U', 'T') => Some(Utah)
      case ('W', 'A') => Some(Washington)
      case _ => None
  }

  /** A country's abbreviation is upper case and names that country alone. */
  lemma CountryAbbreviation(c: Country)
    ensures IsUpperCase(CountryValue(c).abbreviation)
    ensures '/' !in CountryValue(c).parentFolder
    ensures CountryOfAbbreviation(CountryValue(c).abbreviation) == Some(c)
  {
    CountryAbbreviationIsUpperCase(c);
    CountryFolderHasNoSlash(c);
    CountryOfAbbreviationInverts(c);
  }

  lemma CountryAbbreviationIsUpperCase(c: Country)
    ensures IsUpperCase(CountryValue(c).abbreviation)
  {
    match c
    case UnitedStates => case Canada => case China => case HongKong => case UnitedKingdom =>
    case Germany => case Spain => case Mexico => case Australia =>
  }

  lemma CountryFolderHasNoSlash(c: Country)
    ensures '/' !in CountryValue(c).parentFolder
  {
    match c
    case UnitedStates => case Canada => case China => case HongKong => case UnitedKingdom =>
    case Germany => case Spain => case Mexico => case Australia =>
  }

  lemma CountryOfAbbreviationInverts(c: Country)
    ensures CountryOfAbbreviation(CountryValue(c).abbreviation) == Some(c)
  {
    match c
    case UnitedStates => case Canada => case China => case HongKong => case UnitedKingdom =>
    case Germany => case Spain => case Mexico => case Australia =>
  }

  /** A state's abbreviation is upper case, names that state alone, and is not a country's. */
  lemma StateAbbreviation(s: State)
    ensures IsUpperCase(StateValue(s).abbreviation)
    ensures StateValue(s).parentFolder == "united-states"
    ensures StateOfAbbreviation(StateValue(s).abbreviation) == Some(s)
    ensures CountryOfAbbreviation(StateValue(s).abbreviation) == None
  {
  }

  /** Different countries have different address files. */
  lemma CountryAddressFileInjective(c: Country, d: Country)
    requires GetCountryAddressFile(c) == GetCountryAddressFile(d)
    ensures c == d
  {
    CountryAbbreviation(c);
    CountryAbbreviation(d);
    AddressFileInjective(CountryValue(c), CountryValue(d));
    LowerInjectiveOnUpperCase(CountryValue(c).abbreviation, CountryValue(d).abbreviation);
  }

  /** Different states have different address files. */
  lemma StateAddressFileInjective(s: State, t: State)
    requires GetStateAddressFile(s) == GetStateAddressFile(t)
    ensures s == t
  {
    StateAbbreviation(s);
    StateAbbreviation(t);
    AddressFileInjective(StateValue(s), StateValue(t));
    LowerInjectiveOnUpperCase(StateValue(s).abbreviation, StateValue(t).abbreviation);
  }

  /** No state shares its address file with a country. */
  lemma CountryAndStateFilesDiffer(c: Country, s: State)
    ensures GetCountryAddressFile(c) != GetStateAddressFile(s)
  {
    if GetCountryAddressFile(c) == GetStateAddressFile(s) {
      CountryAbbreviation(c);
      StateAbbreviation(s);
      AddressFileInjective(CountryValue(c), StateValue(s));
      LowerInjectiveOnUpperCase(CountryValue(c).abbreviation, StateValue(s).abbreviation);
    }
  }

  /** The eighteen paths of the two tables are pairwise distinct. */
  lemma AddressFilesDistinct()
    ensures |AllAddressFiles()| == 18
    ensures Distinct(AllAddressFiles())
  {
    forall i, j | 0 <= i < j < 18 ensures AllAddressFiles()[i] != AllAddressFiles()[j] {
      AddressFilesDiffer(i, j);
    }
  }

  /** Two positions of the eighteen files hold different paths. */
  lemma AddressFilesDiffer(i: nat, j: nat)
    requires i < j < 18
    ensures AllAddressFiles()[i] != AllAddressFiles()[j]
  {
    if j < 9 {
      CountryFilesDiffer(i, j);
    } else if i < 9 {
      assert AllAddressFiles()[i] == GetCountryAddressFile(CountryMembers()[i]);
      assert AllAddressFiles()[j] == GetStateAddressFile(StateMembers()[j - 9]);
      CountryAndStateFilesDiffer(CountryMembers()[i], StateMembers()[j - 9]);
    } else {
      StateFilesDiffer(i - 9, j - 9);
    }
  }

  lemma CountryFilesDiffer(i: nat, j: nat)
    requires i < j < 9
    ensures AllAddressFiles()[i] != AllAddressFiles()[j]
  {
    assert AllAddressFiles()[i] == GetCountryAddressFile(CountryMembers()[i]);
    assert AllAddressFiles()[j] == GetCountryAddressFile(CountryMembers()[j]);
    if GetCountryAddressFile(CountryMembers()[i]) == GetCountryAddressFile(CountryMembers()[j]) {
      CountryAddressFileInjective(CountryMembers()[i], CountryMembers()[j]);
    }
  }

  lemma StateFilesDiffer(i: nat, j: nat)
    requires i < j < 9
    ensures AllAddressFiles()[i + 9] != AllAddressFiles()[j + 9]
  {
    assert AllAddressFiles()[i + 9] == GetStateAddressFile(StateMembers()[i]);
    assert AllAddressFiles()[j + 9] == GetStateAddressFile(StateMembers()[j]);
    if GetStateAddressFile(StateMembers()[i]) == GetStateAddressFile(StateMembers()[j]) {
      StateAddressFileInjective(StateMembers()[i], StateMembers()[j]);
    }
  }

  /** `STATE.CALIFORNIA` resolves to `json/addresses/united-states/ca-addresses.min.json`. */
  lemma CaliforniaAddressFile()
    ensures GetStateAddressFile(California) == "json/addresses/" + "united-states" + "/" + "ca" + "-addresses.min.json"
  {
    assert Lower("CA") == "ca";
  }

  /** A given country decides the result, whatever the state argument is. */
  lemma RandomAddressFileWithCountry(c: Country, state: Option<State>, coin: nat, raw: nat)
    ensures GetRandomAddressFile(Some(c), state, coin, raw) == GetCountryAddressFile(c)
  {
  }

  /** Without a country, a given state decides the result. */
  lemma RandomAddressFileWithState(s: State, coin: nat, raw: nat)
    ensures GetRandomAddressFile(None, Some(s), coin, raw) == GetStateAddressFile(s)
  {
  }

  /** The draw `i` makes `get_random_country_address_file()` give the `i`-th country's file. */
  lemma RandomCountryAddressFileAt(i: nat)
    requires i < 9
    ensures GetRandomCountryAddressFile(i) == CountryAddressFiles()[i]
  {
    ExtendedEnum.RandomAt(CountryMembers(), i);
  }

  /** The draw `i` makes `get_random_state_address_file()` give the `i`-th state's file. */
  lemma RandomStateAddressFileAt(i: nat)
    requires i < 9
    ensures GetRandomStateAddressFile(i) == StateAddressFiles()[i]
  {
    ExtendedEnum.RandomAt(StateMembers(), i);
  }

  /** Without either argument, a true coin leads to a random country file. */
  lemma RandomAddressFileOnTrueCoin(coin: nat, raw: nat)
    requires RandomUtils.GetRandomBoolean(coin)
    ensures GetRandomAddressFile(None, None, coin, raw) == GetRandomCountryAddressFile(raw)
  {
  }

  /** Without either argument, a false coin leads to a random state file. */
  lemma RandomAddressFileOnFalseCoin(coin: nat, raw: nat)
    requires !RandomUtils.GetRandomBoolean(coin)
    ensures GetRandomAddressFile(None, None, coin, raw) == GetRandomStateAddressFile(raw)
  {
  }

  /** Without either argument, each of the eighteen files is a possible result. */
  lemma RandomAddressFileReachesAll(file: string)
    requires file in AllAddressFiles()
    ensures exists coin: nat, raw: nat :: GetRandomAddressFile(None, None, coin, raw) == file
  {
    var i :| 0 <= i < 18 && AllAddressFiles()[i] == file;
    if i < 9 {
      assert file == CountryAddressFiles()[i];
      RandomCountryAddressFileAt(i);
      RandomUtils.GetRandomBooleanAt(1);
      RandomAddressFileOnTrueCoin(1, i);
      assert GetRandomAddressFile(None, None, 1, i) == file;
    } else {
      assert file == StateAddressFiles()[i - 9];
      RandomStateAddressFileAt(i - 9);
      RandomUtils.GetRandomBooleanAt(0);
      RandomAddressFileOnFalseCoin(0, i - 9);
      assert GetRandomAddressFile(None, None, 0, i - 9) == file;
    }
  }

  /** With the United States, `get_address_file` gives a state's file, never the United States file. */
  lemma AddressFileForUnitedStates(state: Option<State>, raw: nat)
    ensures GetAddressFile(Some(UnitedStates), state, raw).Ok?
    ensures GetAddressFile(Some(UnitedStates), state, raw).value != GetCountryAddressFile(UnitedStates)
    ensures exists s: State :: GetAddressFile(Some(UnitedStates), state, raw).value == GetStateAddressFile(s)
  {
    var r := GetAddressFile(Some(UnitedStates), state, raw).value;
    var i :| 0 <= i < 9 && StateAddressFiles()[i] == r;
    assert r == GetStateAddressFile(StateMembers()[i]);
    CountryAndStateFilesDiffer(UnitedStates, StateMembers()[i]);
  }

  /** Any other country gives its own file, and the state argument is never consulted. */
  lemma AddressFileForOtherCountry(c: Country, state: Option<State>, raw: nat)
    requires c != UnitedStates
    ensures GetAddressFile(Some(c), state, raw) == Ok(GetCountryAddressFile(c))
  {
  }

  /** The call `get_address_file(state=STATE.CALIFORNIA)` raises AttributeError. */
  lemma AddressFileWithOnlyAStateFails()
    ensures GetAddressFile(None, Some(California), 0) == Err(NoneHasNoValue)
    ensures GetAddressFileCorrected(None, Some(California), 0)
         == Ok("json/addresses/" + "united-states" + "/" + "ca" + "-addresses.min.json")
  {
    CaliforniaAddressFile();
  }
}
