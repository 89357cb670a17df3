# easypostdevtools fixture helpers, modelled in Dafny

The Python package `easypostdevtools` builds randomized test fixtures for the
EasyPost shipping API client. This project models the four pieces of it that
hold real logic, and proves properties of them:

- `Random.get_random_items_from_list`, the sampler that draws `amount` records
  from a list. It draws with replacement when duplicates are allowed. Otherwise
  it draws without replacement and removes each choice from the caller's list in
  place. Beside it are the one-line random helpers of `utils/Random.py`.
- The address-file resolver of `Constants.py`. It covers the `JsonFile` and
  `JsonAddressFile` path builders, the `Addresses.COUNTRY` and `Addresses.STATE`
  tables of nine members each, and the resolution policy of `get_address_file`
  and `get_random_address_file`.
- The calendar helpers of `utils/Dates.py`: the Gregorian leap-year rule, month
  lengths, the last-day predicates, and the two "random future date" choosers.
- The `ExtendedEnum` helpers: `values`, `all`, `amount`, `value_of_index`,
  `index_of` and `random`.

Files, one module each:

- `results.dfy` (`Results`): `Result`, `Option`, and the exceptions the code raises or lets escape.
- `lists.dfy` (`Lists`): the Python `list` operations the code relies on: `remove`, `index` and indexing with negative indices.
- `py_random.dfy` (`PyRandom`): `random.randint`, `random.choice`, `random.getrandbits(1)` and `random.choices`.
- `extended_enum.dfy` (`ExtendedEnum`), `random_utils.dfy` (`RandomUtils`), `constants.dfy` (`Constants`) and `dates.dfy` (`Dates`), one for each source file.

How the model treats the parts it cannot run:

- Randomness is not modelled as a generator. Each draw is a number (`raw`)
  supplied by the caller, or a stream `rng: nat -> nat` for the sampler's loop,
  and the primitive maps it onto its range (`randint(a, b)` gives
  `a + raw % (b - a + 1)`, `choice(s)` gives `s[raw % |s|]`). For every
  primitive there is a lemma that every value of its range comes from some draw.
  So the properties, proved for all draws, hold for every outcome the real
  generator can produce.
- `datetime.now()` becomes a parameter `now`.
- The `datetime(year, month, day)` constructor becomes `Dates.NewDate`. It judges a date by the Gregorian calendar through its own month table `Dates.DaysInMonth`, not through the source's `get_last_day_of_month`, so the lemmas about the choosers also check that table against the calendar.
- Exceptions become `Err` values of `Results.Error`, one constructor per kind.
  Messages the source writes itself are kept verbatim.
- The caller's list in the sampler is a `PyList` object whose `elems` field the
  sampler changes in place. `list.remove(x)` removes the first element equal to
  `x`. That element may sit at a different position from the one drawn, but it
  is equal to the drawn one, so the multiset bookkeeping comes out the same.
- An enumeration class is the sequence of its members in declaration order.
  Python's `Enum` lists each member once. The `JsonAddressFile` values have no
  `__eq__`, so they compare by identity, and the tables therefore have no
  aliases.
- Python's `if country:` is `country.Some?`. Enum members without `__bool__`
  are always truthy, so only the missing argument `None` is falsy.

## Model

| member | source | states |
|---|---|---|
| `RandomUtils.GetRandomItemsFromList` | easypostdevtools/utils/Random.py:49-58 | the list of choices it returns (or the exception it raises) and the caller's list afterwards are exactly what `Sample` gives for the list as it was before the call; the loop keeps "what remains to be drawn, run on the current list, gives the same outcome" |
| `RandomUtils.PyList.Remove` | easypostdevtools/utils/Random.py:56 | `items.remove(choice)` replaces the list by `RemoveFirst` of it |
| `RandomUtils.SampleFailsExactly` | easypostdevtools/utils/Random.py:50-54 | the call fails if and only if unique draws ask for more than the list holds (ValueError with the source's message, before any draw) or at least one draw is asked of an empty list (IndexError from `random.choice`); a failed call leaves the list unchanged |
| `RandomUtils.SampleLength` | easypostdevtools/utils/Random.py:52-58 | a successful call returns exactly `amount` elements, and none when `amount <= 0` |
| `RandomUtils.SampleNothing` | easypostdevtools/utils/Random.py:52-58 | for `amount <= 0` the result is `[]` and the list is untouched, with either duplicates policy |
| `RandomUtils.SampleMembers` | easypostdevtools/utils/Random.py:54-57 | every selected element is an element of the caller's original list |
| `RandomUtils.SampleWithDuplicatesKeepsItems` | easypostdevtools/utils/Random.py:55-56 | with duplicates allowed the caller's list is unchanged after the call |
| `RandomUtils.SampleWithoutDuplicatesPartitions` | easypostdevtools/utils/Random.py:55-57 | without duplicates, for `0 <= amount <= len(items)`, the original multiset equals the final list's multiset plus the result's, and the list is exactly `amount` shorter |
| `RandomUtils.SampleWithoutDuplicatesIsDistinct` | easypostdevtools/utils/Random.py:54-56 | without duplicates, a list without repeated elements yields a result without repeated elements |
| `RandomUtils.SampleWholeListIsPermutation` | easypostdevtools/utils/Random.py:49-58 | drawing `len(items)` unique items returns a permutation of the list and leaves it empty |
| `RandomUtils.SampleWithDuplicatesReachesAll` | easypostdevtools/utils/Random.py:53-57 | with duplicates allowed, every sequence of elements of the list is the result of some sequence of draws |
| `RandomUtils.SampleWithoutDuplicatesReachesAll` | easypostdevtools/utils/Random.py:53-57 | without duplicates, every sequence that uses each element at most as often as the list holds it is the result of some sequence of draws; with `SampleWithoutDuplicatesPartitions` this is exactly the set of possible results |
| `RandomUtils.DrawsWithoutDuplicatesReaches` | easypostdevtools/utils/Random.py:53-57 | the loop without duplicates can append any remaining selection the list still covers, and such a selection is never longer than the list |
| `RandomUtils.DrawsReadOnlyLaterDraws` | easypostdevtools/utils/Random.py:53-57 | iteration `i` and those after it depend only on draws `i` onwards |
| `RandomUtils.DrawsWithDuplicates` | easypostdevtools/utils/Random.py:53-57 | the loop with duplicates allowed keeps the list, fails only on an empty list, extends the selections by one list element per iteration |
| `RandomUtils.DrawsWithoutDuplicates` | easypostdevtools/utils/Random.py:53-57 | the loop without duplicates, with enough elements left, succeeds, shrinks the list by one per iteration and moves elements from the list to the selections without losing or creating any |
| `Lists.RemoveFirst` | easypostdevtools/utils/Random.py:56 | `list.remove(x)` on a list holding `x` makes it one element shorter |
| `Lists.RemoveFirstDropsFirstOccurrence` | easypostdevtools/utils/Random.py:56 | `list.remove(x)` deletes the element at the position `list.index(x)` reports, and nothing else |
| `Lists.RemoveFirstMultiset` | easypostdevtools/utils/Random.py:56 | `list.remove(x)` shortens the list by one and takes exactly one `x` out of its multiset |
| `Lists.DistinctIndexOf` | easypostdevtools/models/ExtendedEnum.py:28 | in a list without repeats, `index` of the element at position `i` is `i` |
| `Lists.DistinctIffSingleCounts` | easypostdevtools/utils/Random.py:54-56 | a list has no repeated element if and only if every multiplicity is at most one |
| `RandomUtils.GetRandomBooleanTakesBothValues` | easypostdevtools/utils/Random.py:9-10 | `get_random_boolean()` can return both `True` and `False` |
| `RandomUtils.GetRandomBooleanAt` | easypostdevtools/utils/Random.py:9-10 | the bit 1 gives `True` and the bit 0 gives `False` |
| `PyRandom.RandBit` | easypostdevtools/utils/Random.py:10 | `getrandbits(1)` is 0 or 1 |
| `PyRandom.RandBitReaches` | easypostdevtools/utils/Random.py:10 | both bits are possible outcomes of `getrandbits(1)` |
| `RandomUtils.GetRandomIntInRange` | easypostdevtools/utils/Random.py:13-14 | the value lies in the inclusive range `[minimum, maximum]`; `random.randint` raises ValueError exactly when the range is empty |
| `RandomUtils.GetRandomIntInRangeReachesAll` | easypostdevtools/utils/Random.py:13-14 | every integer of the range is produced by some draw |
| `PyRandom.RandInt` | easypostdevtools/utils/Random.py:14 | `random.randint(a, b)` gives a value in `[a, b]` and fails exactly when `a > b` |
| `RandomUtils.GetRandomInt` | easypostdevtools/utils/Random.py:17-18 | never fails and gives a value from 0 to 100 |
| `RandomUtils.GetRandomCharacter` | easypostdevtools/utils/Random.py:37-38 | the character code lies in 0..255 |
| `RandomUtils.GetRandomStringOfLength` | easypostdevtools/utils/Random.py:41-42 | the string has length `length` (empty for `length <= 0`) and holds only ASCII letters and digits |
| `RandomUtils.GetRandomString` | easypostdevtools/utils/Random.py:45-46 | the string has 3 to 10 characters, all ASCII letters or digits |
| `RandomUtils.CharRange` | easypostdevtools/utils/Random.py:42 | `count` consecutive characters starting at `first`, as `ascii_lowercase`, `ascii_uppercase` and `digits` are laid out |
| `RandomUtils.Alphanumerics` | easypostdevtools/utils/Random.py:42 | `ascii_letters + digits` has 62 characters, all letters or digits |
| `PyRandom.Choices` | easypostdevtools/utils/Random.py:42 | `random.choices(population, k)` gives `max(k, 0)` elements of the population |
| `PyRandom.ChoicesReaches` | easypostdevtools/utils/Random.py:42 | every choice of positions in the population is the result of some draw stream |
| `RandomUtils.GetRandomItemFromList` | easypostdevtools/utils/Random.py:61-62 | the result is an element of the list; IndexError exactly when the list is empty |
| `PyRandom.Choice` | easypostdevtools/utils/Random.py:62 | `random.choice(s)` gives an element of `s` and fails exactly when `s` is empty |
| `PyRandom.ChoiceAt` | easypostdevtools/utils/Random.py:62 | every position of a non-empty sequence is chosen by some draw |
| `PyRandom.ChoiceReaches` | easypostdevtools/utils/Random.py:62 | every element is a possible outcome of `random.choice` |
| `RandomUtils.GetRandomEnum` | easypostdevtools/utils/Random.py:65-66 | the result is a member of the enumeration; IndexError from `random.choice` exactly when it has no members |
| `Constants.EnumerationValues` | easypostdevtools/models/ExtendedEnum.py:7-8 | `values()` of COUNTRY and of STATE lists each of the nine members exactly once, and `value_of_index(0)` is the first member declared |
| `ExtendedEnum.All` | easypostdevtools/models/ExtendedEnum.py:11-12 | `all()` is the member list, the same one `values()` gives |
| `ExtendedEnum.Amount` | easypostdevtools/models/ExtendedEnum.py:15-16 | `amount()` is the number of members |
| `ExtendedEnum.ValueOfIndex` | easypostdevtools/models/ExtendedEnum.py:23-24 | succeeds exactly for `-amount() <= index < amount()` (IndexError otherwise) and gives a member |
| `ExtendedEnum.IndexOf` | easypostdevtools/models/ExtendedEnum.py:27-28 | succeeds exactly for members and gives a position below `amount()` holding that member; ValueError otherwise |
| `Lists.IndexOf` | easypostdevtools/models/ExtendedEnum.py:28 | `list.index(x)` finds the first position holding `x`, and fails exactly when `x` is absent |
| `Lists.At` | easypostdevtools/models/ExtendedEnum.py:24 | `list[index]` succeeds exactly for `-len <= index < len` and then gives the element at `index` modulo `len`, so a negative index counts from the end; IndexError otherwise |
| `ExtendedEnum.Random` | easypostdevtools/models/ExtendedEnum.py:31-32 | `random()` gives a member, and fails, with IndexError, only for an enumeration without members |
| `ExtendedEnum.IndexOfValueOfIndex` | easypostdevtools/models/ExtendedEnum.py:22-28 | `index_of(value_of_index(i)) == i` for every `0 <= i < amount()` |
| `ExtendedEnum.ValueOfIndexIndexOf` | easypostdevtools/models/ExtendedEnum.py:22-28 | `value_of_index(index_of(m)) == m` for every member `m` |
| `ExtendedEnum.NegativeIndexCountsFromEnd` | easypostdevtools/models/ExtendedEnum.py:23-24 | a negative index names the same member as that index plus `amount()` |
| `ExtendedEnum.IndexOfNonMember` | easypostdevtools/models/ExtendedEnum.py:27-28 | `index_of` on a non-member raises ValueError |
| `ExtendedEnum.RandomReachesEveryMember` | easypostdevtools/models/ExtendedEnum.py:31-32 | every member is the outcome of `random()` for some draw |
| `ExtendedEnum.RandomAt` | easypostdevtools/models/ExtendedEnum.py:31-32 | the draw `i` gives the member at position `i` |
| `Constants.Lower` | easypostdevtools/Constants.py:22 | `str.lower()` keeps the length, turns each ASCII capital into the small letter at the same position of the alphabet, and keeps every other character |
| `Constants.JsonPathParts` | easypostdevtools/Constants.py:20-22 | `json_path` splits back into the folder, a slash, the lowered file name, which holds no capital, and the `.min.json` suffix |
| `Constants.LowerHasNoUpperCase` | easypostdevtools/Constants.py:22 | a lowered string contains no ASCII capital |
| `Constants.LowerAppend` | easypostdevtools/Constants.py:22 | lowering a concatenation lowers each part |
| `Constants.JsonAddressFile.AddressFile` | easypostdevtools/Constants.py:15-31 | the address file of `(abbreviation, folder)` is `json/addresses/{folder}/{lower(abbreviation)}-addresses.min.json`: the `json_path` of the file named `{abbreviation}-addresses`, under `json/addresses/` |
| `Constants.AddressFileInjective` | easypostdevtools/Constants.py:15-31 | two address files with slash-free folders are equal only if their folders and lowered abbreviations are |
| `Constants.CountryMembers` | easypostdevtools/Constants.py:35-44 | the nine COUNTRY members in declaration order, none twice |
| `Constants.StateMembers` | easypostdevtools/Constants.py:46-55 | the nine STATE members in declaration order, none twice |
| `Constants.CountryMembersAreComplete` | easypostdevtools/Constants.py:35-44 | every COUNTRY member is listed |
| `Constants.StateMembersAreComplete` | easypostdevtools/Constants.py:46-55 | every STATE member is listed |
| `Constants.EnumerationSizes` | easypostdevtools/Constants.py:35-55 | `COUNTRY.amount() == 9` and `STATE.amount() == 9`, with no alias |
| `Constants.CountryAbbreviation` | easypostdevtools/Constants.py:35-44 | each country's abbreviation is upper case and belongs to that country alone |
| `Constants.StateAbbreviation` | easypostdevtools/Constants.py:46-55 | each state's folder is `united-states`, its abbreviation is upper case, belongs to it alone and is no country's |
| `Constants.CountryAddressFileInjective` | easypostdevtools/Constants.py:35-44 | different countries have different address files |
| `Constants.StateAddressFileInjective` | easypostdevtools/Constants.py:46-55 | different states have different address files |
| `Constants.CountryAndStateFilesDiffer` | easypostdevtools/Constants.py:35-55 | no state shares its address file with a country |
| `Constants.AddressFilesDistinct` | easypostdevtools/Constants.py:36-55 | the 18 paths of the two tables are pairwise distinct |
| `Constants.CaliforniaAddressFile` | easypostdevtools/Constants.py:48 | `STATE.CALIFORNIA` gives `json/addresses/united-states/ca-addresses.min.json` |
| `Constants.GetStateAddressFile` | easypostdevtools/Constants.py:57-59 | a state's file lies in `json/addresses/united-states/` and is named after its lowered abbreviation |
| `Constants.GetCountryAddressFile` | easypostdevtools/Constants.py:61-63 | a country's file lies in its folder and is named after its lowered abbreviation |
| `Constants.CountryFileListed` | easypostdevtools/Constants.py:61-63 | each country's file is one of the nine country files |
| `Constants.StateFileListed` | easypostdevtools/Constants.py:57-59 | each state's file is one of the nine state files |
| `Constants.GetRandomStateAddressFile` | easypostdevtools/Constants.py:74-77 | the result is one of the nine state files |
| `Constants.GetRandomCountryAddressFile` | easypostdevtools/Constants.py:79-82 | the result is one of the nine country files |
| `Constants.GetRandomAddressFile` | easypostdevtools/Constants.py:84-94 | without arguments the result is one of the 18 files: a country file when the coin is true, a state file otherwise |
| `Constants.RandomAddressFileWithCountry` | easypostdevtools/Constants.py:86-87 | with a country the result is that country's file, whatever the state argument is |
| `Constants.RandomAddressFileWithState` | easypostdevtools/Constants.py:88-89 | with no country but a state the result is that state's file |
| `Constants.RandomAddressFileOnTrueCoin` | easypostdevtools/Constants.py:90-92 | without arguments a true coin defers to `get_random_country_address_file()` |
| `Constants.RandomAddressFileOnFalseCoin` | easypostdevtools/Constants.py:90-94 | without arguments a false coin defers to `get_random_state_address_file()` |
| `Constants.RandomCountryAddressFileAt` | easypostdevtools/Constants.py:79-82 | the draw `i` gives the file of the `i`-th country |
| `Constants.RandomStateAddressFileAt` | easypostdevtools/Constants.py:74-77 | the draw `i` gives the file of the `i`-th state |
| `Constants.RandomAddressFileReachesAll` | easypostdevtools/Constants.py:90-94 | without arguments every one of the 18 files is a possible result |
| `Constants.GetAddressFile` | easypostdevtools/Constants.py:65-72 | as written: ValueError with the source's message when neither argument is given; AttributeError when only a state is given; with UNITED_STATES a state file |
| `Constants.AddressFileForUnitedStates` | easypostdevtools/Constants.py:69-70 | with UNITED_STATES the result is some state's file and never the United States file |
| `Constants.AddressFileForOtherCountry` | easypostdevtools/Constants.py:71-72 | any other country gives its own file, whatever the state argument is |
| `Constants.AddressFileWithOnlyAStateFails` | easypostdevtools/Constants.py:67-72 | `get_address_file(state=STATE.CALIFORNIA)` raises AttributeError, while the corrected resolver gives California's file |
| `Constants.GetAddressFileCorrected` | easypostdevtools/Constants.py:65-72 | fails exactly when neither argument is given; a state alone gives that state's file; UNITED_STATES gives a state file; any other country gives its own file, whatever the state is |
| `Dates.LeapYearExamples` | easypostdevtools/utils/Dates.py:12-13 | 2000 and 2024 are leap years, 1900 and 2023 are not |
| `Dates.LeapYearIsGregorian` | easypostdevtools/utils/Dates.py:12-13 | `is_leap_year` is the Gregorian rule: every 400th year, and every 4th year that is not a century |
| `Dates.LeapYearCycle` | easypostdevtools/utils/Dates.py:12-13 | leap years repeat with a period of 400 years |
| `Dates.YearLength` | easypostdevtools/utils/Dates.py:12-27 | the twelve month lengths add up to 366 exactly in leap years, and 365 otherwise |
| `Dates.GetLastDayOfMonth` | easypostdevtools/utils/Dates.py:16-27 | succeeds exactly for months 1..12 with a value in 28..31; ValueError("Invalid month") otherwise |
| `Dates.FebruaryLength` | easypostdevtools/utils/Dates.py:21-25 | February has 29 days if and only if the year is a leap year, and 28 otherwise |
| `Dates.LastDayOfMonthIsCalendar` | easypostdevtools/utils/Dates.py:16-27 | for every month 1..12 of every year, `get_last_day_of_month` equals the Gregorian month length the `datetime` type uses (`DaysInMonth`, a table written independently of the source's) |
| `Dates.IsLastDayOfMonth` | easypostdevtools/utils/Dates.py:30-31 | holds exactly when the `datetime` constructor, which checks the Gregorian month length, rejects the following day of the same month |
| `Dates.IsLastMonthOfYear` | easypostdevtools/utils/Dates.py:34-35 | holds exactly when no month follows in the same year |
| `Dates.IsLastDayOfYear` | easypostdevtools/utils/Dates.py:38-39 | holds if and only if the month is 12 and the day is 31 |
| `Dates.GetFutureDateThisMonth` | easypostdevtools/utils/Dates.py:65-72 | raises "This month is over." exactly on the last day of the month; otherwise it returns a date the `datetime` constructor accepts, in the same year and month, with `now.day < day <=` the Gregorian length of the month |
| `Dates.FutureDateThisMonthReachesAll` | easypostdevtools/utils/Dates.py:65-72 | every later day of the current month is a possible result |
| `Dates.GetFutureDateThisYear` | easypostdevtools/utils/Dates.py:42-62 | raises "This year is over." exactly on 31 December and fails in no other way, so every range it asks `randint` for is non-empty; otherwise it returns a valid date in the same year, strictly later than `now` in (month, day) order |
| `Dates.FutureDateThisYearBounds` | easypostdevtools/utils/Dates.py:43-51 | a later date of the same year means `now` is not 31 December, and its month is at least the first month the chooser draws from |
| `Dates.FutureDateThisYearFromDraws` | easypostdevtools/utils/Dates.py:46-62 | once the month and day draws are fixed, the chooser builds exactly that date |
| `Dates.FutureDateThisYearReachesAll` | easypostdevtools/utils/Dates.py:42-62 | every later date of the current year is a possible result |

## Findings

| source | as written | input that shows it | evidently intended | confidence | as-written member | corrected member |
|---|---|---|---|---|---|---|
| easypostdevtools/Constants.py:63-72 | when `country` is `None` and a `state` is given, the guard at line 67 lets the call through, line 72 passes `None` to `get_country_address_file`, and line 63 reads `None.value` | `get_address_file(state=STATE.CALIFORNIA)` raises AttributeError | the error message "Must specify either country or state" says a state alone is valid input, so it should resolve to that state's file, as `get_random_address_file` does | medium; not executed | `Constants.GetAddressFile` (witnessed by `Constants.AddressFileWithOnlyAStateFails`) | `Constants.GetAddressFileCorrected` |

## Left out

- `EasyPostDevTools.py` is not part of this model. It holds API calls (`easypost.Address.create`), `.env` loading, JSON file reads and empty stubs. `get_maps_different_state` and `get_maps_different_countries` call the sampler with two arguments where it takes three, so they raise TypeError and have no working behaviour to model.
- `JSONReader.py` is not part of this model. It only opens and parses files before passing the list to the sampler, which is modelled on the already-loaded list.
- The float helpers `get_random_double*` and `get_random_float*` are left out, because they are floating point (`random.uniform`).
- `Dates.to_string` (`strftime` formatting), `get_date_after` and `get_date_before` (`timedelta` arithmetic) are left out. So are `get_future_dates` and `get_past_dates`, loops over those two that start at `datetime.now()`. All of them rely on library date arithmetic.
- `ExtendedEnum.value_of` is left out. `cls(value)` looks a member up by a `JsonAddressFile` object, and such objects compare by identity, which a value model cannot express.
- The probability distributions are left out: uniform draws, and the coin-then-member two-step distribution of `get_random_address_file`. Only the set of possible outcomes is modelled and proved.
- The choosers in `Dates` call `datetime.now()` several times. The model reads a single `now`, so it does not capture a call that runs across midnight.
- `Constants.Lower`: models `str.lower()` on ASCII letters only. Every string it is applied to here is ASCII.
- `RandomUtils.PyList.Remove`: requires the element to be present instead of modelling ValueError from `list.remove`. The sampler always removes an element it has just drawn from the same list.
- `PyRandom.Choices`: requires a non-empty population instead of modelling its IndexError. The only population used is the 62-character alphabet.
- `Dates.Date` keeps only the calendar part of a `datetime`. The time of day plays no part in the modelled functions.
