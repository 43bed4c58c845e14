/**
  The domain allow-list of `DnsConfigurationService`: a hash set of exact
  names and `*.suffix` wildcard patterns compared with the ordinal
  ignore-case comparer, the allow decision, and the add, remove and reload
  transitions. Reading and writing the JSON file are left to the caller:
  reload receives what the file turned out to hold.
*/
module DnsConfiguration {
  import opened Text

  /**
    The set's contents, keyed by the form the ignore-case comparer sees.
    Each key maps to the spelling that was stored first, which is what the
    set hands back when listed.
  */
  type AllowList = map<string, string>

  /** Every stored spelling sits under its own folded key. */
  predicate Valid(list: AllowList)
  {
    forall key :: key in list ==> Fold(list[key]) == key
  }

  /** `HashSet.Contains` under the ignore-case comparer. */
  predicate Contains(list: AllowList, domain: string)
  {
    Fold(domain) in list
  }

  /** Membership as the set sees it: some stored spelling equals the name ignoring case. */
  lemma ContainsStoredVariant(list: AllowList, domain: string)
    requires Valid(list)
    ensures Contains(list, domain) <==> exists key :: key in list && EqualsIgnoreCase(list[key], domain)
  {
    if Contains(list, domain) {
      assert EqualsIgnoreCase(list[Fold(domain)], domain);
    }
  }

  /** `HashSet.Add`: a no-op when an ignore-case equal entry is already present. */
  function Insert(list: AllowList, domain: string): (r: AllowList)
    requires Valid(list)
    ensures Valid(r)
    ensures r.Keys == list.Keys + {Fold(domain)}
    ensures forall key :: key in list ==> r[key] == list[key]
    ensures !Contains(list, domain) ==> r[Fold(domain)] == domain
  {
    if Fold(domain) in list then list else list[Fold(domain) := domain]
  }

  /** `HashSet.Remove`: drops the ignore-case equal entry, if any. */
  function Delete(list: AllowList, domain: string): (r: AllowList)
    requires Valid(list)
    ensures Valid(r)
    ensures r.Keys == list.Keys - {Fold(domain)}
    ensures forall key :: key in r ==> r[key] == list[key]
  {
    list - {Fold(domain)}
  }

  // ---------------------------------------------------------------------
  // The allow decision
  // ---------------------------------------------------------------------

  /**
    Whether some wildcard `*.` + (pieces `i..` joined by dots) is listed,
    for `i` from the given start to the last piece: the parent-domain loop.
  */
  function WildcardFrom(list: AllowList, parts: seq<string>, i: nat): (r: bool)
    ensures r <==> exists j :: i <= j < |parts| && Contains(list, "*." + Join(parts[j..], '.'))
    decreases |parts| - i
  {
    if i >= |parts| then false
    else Contains(list, "*." + Join(parts[i..], '.')) || WildcardFrom(list, parts, i + 1)
  }

  /**
    `IsAllowedDomain`: never for a blank query; otherwise, with trailing dots
    removed, an exact entry, or a wildcard naming one of its parent domains
    (the pieces after the first, the second, ... dot).
  */
  function IsAllowedDomain(list: AllowList, domain: string): (r: bool)
    ensures IsBlank(domain) ==> !r
  {
    if IsBlank(domain) then false
    else
      var name := TrimEnd(domain, '.');
      Contains(list, name) || WildcardFrom(list, Split(name, '.'), 1)
  }

  /**
    The allow decision stated without the split: the trimmed query is listed,
    or `*.` followed by what comes after one of its dots is.
  */
  predicate AllowedByEntries(list: AllowList, domain: string)
  {
    && !IsBlank(domain)
    && var name := TrimEnd(domain, '.');
       || Contains(list, name)
       || exists k :: 0 <= k < |name| && name[k] == '.' && Contains(list, "*." + name[k + 1..])
  }

  /** The parent-domain loop and the dot-position form agree, in both directions. */
  lemma IsAllowedDomainCharacterized(list: AllowList, domain: string)
    ensures IsAllowedDomain(list, domain) <==> AllowedByEntries(list, domain)
  {
    if !IsBlank(domain) {
      var name := TrimEnd(domain, '.');
      var parts := Split(name, '.');
      if WildcardFrom(list, parts, 1) {
        var j :| 1 <= j < |parts| && Contains(list, "*." + Join(parts[j..], '.'));
        var k := JoinedTailFollowsSeparator(name, '.', j);
        assert name[k] == '.' && Contains(list, "*." + name[k + 1..]);
      }
      if exists k :: 0 <= k < |name| && name[k] == '.' && Contains(list, "*." + name[k + 1..]) {
        var k :| 0 <= k < |name| && name[k] == '.' && Contains(list, "*." + name[k + 1..]);
        var j := SeparatorStartsJoinedTail(name, '.', k);
        assert Contains(list, "*." + Join(parts[j..], '.'));
      }
    }
  }

  /** A wildcard naming what follows a dot of `x` also names what follows the same dot of a case variant `y`. */
  lemma WildcardEntryIgnoresCase(list: AllowList, x: string, y: string, k: nat)
    requires EqualsIgnoreCase(x, y)
    requires k < |x| && x[k] == '.' && Contains(list, "*." + x[k + 1..])
    ensures k < |y| && y[k] == '.' && Contains(list, "*." + y[k + 1..])
  {
    CaselessAt(x, y, k, '.');
    FoldDrop(x, y, k + 1);
    FoldPrepend("*.", x[k + 1..], y[k + 1..]);
  }

  /** What allows a query allows each of its case variants. */
  lemma EntriesIgnoreCase(list: AllowList, a: string, b: string)
    requires EqualsIgnoreCase(a, b)
    ensures AllowedByEntries(list, a) ==> AllowedByEntries(list, b)
  {
    if AllowedByEntries(list, a) {
      BlankIgnoresCase(a, b);
      var x, y := TrimEnd(a, '.'), TrimEnd(b, '.');
      TrimEndIgnoresCase(a, b, '.');
      if !Contains(list, x) {
        var k :| 0 <= k < |x| && x[k] == '.' && Contains(list, "*." + x[k + 1..]);
        WildcardEntryIgnoresCase(list, x, y, k);
      }
    }
  }

  /** Case does not matter: queries equal ignoring case get the same answer. */
  lemma AllowIgnoresCase(list: AllowList, a: string, b: string)
    requires EqualsIgnoreCase(a, b)
    ensures IsAllowedDomain(list, a) == IsAllowedDomain(list, b)
  {
    IsAllowedDomainCharacterized(list, a);
    IsAllowedDomainCharacterized(list, b);
    EntriesIgnoreCase(list, a, b);
    EntriesIgnoreCase(list, b, a);
  }

  /** Trailing dots do not matter: a non-blank query with one more dot gets the same answer. */
  lemma AllowIgnoresTrailingDot(list: AllowList, domain: string)
    requires !IsBlank(domain)
    ensures IsAllowedDomain(list, domain + ".") == IsAllowedDomain(list, domain)
  {
    assert (domain + ".")[..|domain|] == domain;
  }

  /** A larger list allows at least as much: adding entries never revokes an allow. */
  lemma AllowMonotone(small: AllowList, large: AllowList, domain: string)
    requires small.Keys <= large.Keys
    requires IsAllowedDomain(small, domain)
    ensures IsAllowedDomain(large, domain)
  {
    IsAllowedDomainCharacterized(small, domain);
    IsAllowedDomainCharacterized(large, domain);
  }

  /** A wildcard `*.S` allows every name made of one or more labels, a dot, and `S`. */
  lemma WildcardAllowsSubdomains(list: AllowList, labels: string, suffix: string)
    requires Contains(list, "*." + suffix)
    requires suffix != "" && suffix[|suffix| - 1] != '.'
    ensures IsAllowedDomain(list, labels + "." + suffix)
  {
    var name := labels + "." + suffix;
    assert name[|labels|] == '.' && name[|labels| + 1..] == suffix;
    assert !IsWhiteSpace(name[|labels|]);
    IsAllowedDomainCharacterized(list, name);
  }

  /** A list whose only entry is the wildcard `*.S` does not allow `S` itself. */
  lemma WildcardExcludesItself(suffix: string)
    ensures !IsAllowedDomain(Insert(map[], "*." + suffix), suffix)
  {
    var list := Insert(map[], "*." + suffix);
    IsAllowedDomainCharacterized(list, suffix);
    var name := TrimEnd(suffix, '.');
    assert |Fold(name)| < |Fold("*." + suffix)|;
    forall k | 0 <= k < |name|
      ensures name[k] == '.' ==> !Contains(list, "*." + name[k + 1..])
    {
      assert |Fold("*." + name[k + 1..])| < |Fold("*." + suffix)|;
    }
  }

  /** Without wildcard entries, exactly the listed names are allowed (ignoring case and trailing dots). */
  lemma ExactEntriesOnly(list: AllowList, domain: string)
    requires forall key :: key in list ==> key == [] || key[0] != '*'
    ensures IsAllowedDomain(list, domain) <==> !IsBlank(domain) && Contains(list, TrimEnd(domain, '.'))
  {
    IsAllowedDomainCharacterized(list, domain);
    var name := TrimEnd(domain, '.');
    forall k | 0 <= k < |name|
      ensures name[k] == '.' ==> !Contains(list, "*." + name[k + 1..])
    {
      assert Fold("*." + name[k + 1..])[0] == '*';
    }
  }

  /** An exact entry does not allow its subdomains. */
  lemma ExactExcludesSubdomains(domain: string, labels: string)
    requires domain != "" && domain[0] != '*' && domain[|domain| - 1] != '.'
    ensures !IsAllowedDomain(Insert(map[], domain), labels + "." + domain)
  {
    var list := Insert(map[], domain);
    assert list.Keys == {Fold(domain)};
    assert Fold(domain)[0] == FoldChar(domain[0]);
    var query := labels + "." + domain;
    ExactEntriesOnly(list, query);
    assert query[|query| - 1] == domain[|domain| - 1];
    assert TrimEnd(query, '.') == query;
    assert |Fold(query)| > |Fold(domain)|;
  }

  // ---------------------------------------------------------------------
  // Transitions
  // ---------------------------------------------------------------------

  /** `AddAllowedDomain`: blank input is ignored; otherwise the name without trailing dots is added. */
  function AddAllowedDomain(list: AllowList, domain: string): (r: AllowList)
    requires Valid(list)
    ensures Valid(r)
    ensures IsBlank(domain) ==> r == list
    ensures !IsBlank(domain) ==> r.Keys == list.Keys + {Fold(TrimEnd(domain, '.'))}
    ensures forall key :: key in list ==> r[key] == list[key]
    ensures !IsBlank(domain) && !Contains(list, TrimEnd(domain, '.')) ==>
      r[Fold(TrimEnd(domain, '.'))] == TrimEnd(domain, '.')
  {
    if IsBlank(domain) then list else Insert(list, TrimEnd(domain, '.'))
  }

  /** After adding a non-blank name, that name is allowed. */
  lemma AddThenAllowed(list: AllowList, domain: string)
    requires Valid(list) && !IsBlank(domain)
    ensures IsAllowedDomain(AddAllowedDomain(list, domain), domain)
  {
  }

  /** Adding the same name twice is adding it once. */
  lemma AddIdempotent(list: AllowList, domain: string)
    requires Valid(list)
    ensures AddAllowedDomain(AddAllowedDomain(list, domain), domain) == AddAllowedDomain(list, domain)
  {
  }

  /** Adding never revokes an allow. */
  lemma AddKeepsAllows(list: AllowList, domain: string, query: string)
    requires Valid(list) && IsAllowedDomain(list, query)
    ensures IsAllowedDomain(AddAllowedDomain(list, domain), query)
  {
    AllowMonotone(list, AddAllowedDomain(list, domain), query);
  }

  /** `RemoveAllowedDomain`: blank input is ignored; otherwise the entry equal to the trimmed name, ignoring case, is dropped. */
  function RemoveAllowedDomain(list: AllowList, domain: string): (r: AllowList)
    requires Valid(list)
    ensures Valid(r)
    ensures IsBlank(domain) ==> r == list
    ensures !IsBlank(domain) ==> r.Keys == list.Keys - {Fold(TrimEnd(domain, '.'))}
    ensures forall key :: key in r ==> r[key] == list[key]
  {
    if IsBlank(domain) then list else Delete(list, TrimEnd(domain, '.'))
  }

  /** After removal the name has no exact entry left (a wildcard may still allow it). */
  lemma RemoveThenNotListed(list: AllowList, domain: string)
    requires Valid(list) && !IsBlank(domain)
    ensures !Contains(RemoveAllowedDomain(list, domain), TrimEnd(domain, '.'))
  {
  }

  /** Removing a name that has no entry changes nothing. */
  lemma RemoveAbsentIsNoOp(list: AllowList, domain: string)
    requires Valid(list) && !Contains(list, TrimEnd(domain, '.'))
    ensures RemoveAllowedDomain(list, domain) == list
  {
  }

  /** Removal undoes the addition of a name that had no entry. */
  lemma RemoveUndoesAdd(list: AllowList, domain: string)
    requires Valid(list) && !Contains(list, TrimEnd(domain, '.'))
    ensures RemoveAllowedDomain(AddAllowedDomain(list, domain), domain) == list
  {
  }

  // ---------------------------------------------------------------------
  // Loading
  // ---------------------------------------------------------------------

  /**
    What reading the configuration file produced: no file, content that is
    not a JSON array of strings (or is the JSON literal `null`), or a list.
  */
  datatype ConfigFile = Absent | Unparsable | Entries(domains: seq<string>)

  /** The patterns added when there is no file, in this order. */
  const DefaultDomains: seq<string> :=
    ["google.com", "*.google.com", "microsoft.com", "*.microsoft.com", "github.com", "*.github.com"]

  /** `HashSet.Add` of each name in turn; the first of several ignore-case equal spellings is kept. */
  function InsertAll(list: AllowList, domains: seq<string>): (r: AllowList)
    requires Valid(list)
    ensures Valid(r)
    ensures r.Keys == list.Keys + set i | 0 <= i < |domains| :: Fold(domains[i])
    ensures forall key :: key in list ==> r[key] == list[key]
    decreases |domains|
  {
    if |domains| == 0 then list
    else
      FoldsOfFirstAndRest(domains);
      InsertAll(Insert(list, domains[0]), domains[1..])
  }

  /** Each key new to the set holds the first element of the list with that key. */
  lemma {:induction false} InsertAllKeepsFirstSpelling(list: AllowList, domains: seq<string>)
    requires Valid(list)
    ensures var r := InsertAll(list, domains);
      forall key :: key in r && key !in list ==>
        exists i :: 0 <= i < |domains| && Fold(domains[i]) == key && r[key] == domains[i]
                    && forall j :: 0 <= j < i ==> Fold(domains[j]) != key
    decreases |domains|
  {
    if |domains| > 0 {
      InsertAllKeepsFirstSpelling(Insert(list, domains[0]), domains[1..]);
      FirstSpellingStored(list, domains, InsertAll(list, domains));
    }
  }

  /**
    One step of `InsertAll`: when the rest of the list stored the first
    spelling of every key new to the set after the first insertion, the
    whole list stored the first spelling of every key new to the set.
  */
  lemma FirstSpellingStored(list: AllowList, domains: seq<string>, r: AllowList)
    requires Valid(list) && |domains| > 0
    requires var next := Insert(list, domains[0]);
      && (forall key :: key in next ==> key in r && r[key] == next[key])
      && forall key :: key in r && key !in next ==>
           exists i :: 0 <= i < |domains[1..]| && Fold(domains[1..][i]) == key && r[key] == domains[1..][i]
                       && forall j :: 0 <= j < i ==> Fold(domains[1..][j]) != key
    ensures forall key :: key in r && key !in list ==>
      exists i :: 0 <= i < |domains| && Fold(domains[i]) == key && r[key] == domains[i]
                  && forall j :: 0 <= j < i ==> Fold(domains[j]) != key
  {
    var next := Insert(list, domains[0]);
    var rest := domains[1..];
    forall key | key in r && key !in list
      ensures exists i :: 0 <= i < |domains| && Fold(domains[i]) == key && r[key] == domains[i]
                          && forall j :: 0 <= j < i ==> Fold(domains[j]) != key
    {
      if key == Fold(domains[0]) {
        assert r[key] == domains[0];
      } else {
        var i :| 0 <= i < |rest| && Fold(rest[i]) == key && r[key] == rest[i]
                 && forall j :: 0 <= j < i ==> Fold(rest[j]) != key;
        assert domains[i + 1] == rest[i];
        forall j | 0 <= j < i + 1
          ensures Fold(domains[j]) != key
        {
          if j > 0 {
            assert domains[j] == rest[j - 1];
          }
        }
      }
    }
  }

  /** The folded names of a list are the first one's and those of the rest. */
  lemma FoldsOfFirstAndRest(domains: seq<string>)
    requires |domains| > 0
    ensures (set i | 0 <= i < |domains| :: Fold(domains[i]))
         == {Fold(domains[0])} + set i | 0 <= i < |domains[1..]| :: Fold(domains[1..][i])
  {
    var rest := domains[1..];
    var all := set i | 0 <= i < |domains| :: Fold(domains[i]);
    var later := set i | 0 <= i < |rest| :: Fold(rest[i]);
    forall key | key in all
      ensures key == Fold(domains[0]) || key in later
    {
      var i :| 0 <= i < |domains| && key == Fold(domains[i]);
      if i > 0 {
        assert key == Fold(rest[i - 1]);
      }
    }
    forall key | key in later
      ensures key in all
    {
      var i :| 0 <= i < |rest| && key == Fold(rest[i]);
      assert key == Fold(domains[i + 1]);
    }
  }

  /** Each name with its trailing dots removed. */
  function TrimAll(domains: seq<string>): seq<string>
  {
    seq(|domains|, i requires 0 <= i < |domains| => TrimEnd(domains[i], '.'))
  }

  /**
    `LoadConfigurationAsync` as a transition. A list replaces the contents
    with its names, trailing dots removed (blank names included: this path
    has no blank check). A missing file adds the six defaults to what is
    already there. Anything unreadable leaves the contents as they were.
  */
  function LoadConfiguration(list: AllowList, file: ConfigFile): (r: AllowList)
    requires Valid(list)
    ensures Valid(r)
  {
    match file
    case Entries(domains) => InsertAll(map[], TrimAll(domains))
    case Absent => InsertAll(list, DefaultDomains)
    case Unparsable => list
  }

  /** A loaded list holds exactly the file's names, trimmed, whatever was there before. */
  lemma LoadReplaces(list: AllowList, domains: seq<string>, query: string)
    requires Valid(list)
    ensures Contains(LoadConfiguration(list, Entries(domains)), query)
        <==> exists i :: 0 <= i < |domains| && EqualsIgnoreCase(TrimEnd(domains[i], '.'), query)
  {
    var trimmed := TrimAll(domains);
    assert |trimmed| == |domains| && forall k :: 0 <= k < |domains| ==> trimmed[k] == TrimEnd(domains[k], '.');
    if Contains(LoadConfiguration(list, Entries(domains)), query) {
      var i :| 0 <= i < |trimmed| && Fold(trimmed[i]) == Fold(query);
      assert EqualsIgnoreCase(TrimEnd(domains[i], '.'), query);
    }
    if exists i :: 0 <= i < |domains| && EqualsIgnoreCase(TrimEnd(domains[i], '.'), query) {
      var i :| 0 <= i < |domains| && EqualsIgnoreCase(TrimEnd(domains[i], '.'), query);
      assert Fold(trimmed[i]) == Fold(query);
    }
  }

  /** Without a file, the defaults are added and nothing already there is lost or respelled. */
  lemma LoadAbsentAddsDefaults(list: AllowList)
    requires Valid(list)
    ensures forall key :: key in list ==>
      key in LoadConfiguration(list, Absent) && LoadConfiguration(list, Absent)[key] == list[key]
    ensures forall i :: 0 <= i < |DefaultDomains| ==> Contains(LoadConfiguration(list, Absent), DefaultDomains[i])
    ensures forall key :: key in LoadConfiguration(list, Absent) ==>
        key in list || exists i :: 0 <= i < |DefaultDomains| && key == Fold(DefaultDomains[i])
  {
  }

  /** Unreadable content changes nothing. */
  lemma LoadUnparsableKeeps(list: AllowList)
    requires Valid(list)
    ensures LoadConfiguration(list, Unparsable) == list
  {
  }

  // ---------------------------------------------------------------------
  // Listing
  // ---------------------------------------------------------------------

  /** `GetAllowedDomains`: every stored spelling once, in no particular order. */
  method GetAllowedDomains(list: AllowList) returns (domains: seq<string>)
    requires Valid(list)
    ensures |domains| == |list.Keys|
    ensures forall key :: key in list ==> list[key] in domains
    ensures forall i :: 0 <= i < |domains| ==> Fold(domains[i]) in list && list[Fold(domains[i])] == domains[i]
    ensures forall i, j :: 0 <= i < j < |domains| ==> Fold(domains[i]) != Fold(domains[j])
  {
    domains := [];
    var remaining := list.Keys;
    while remaining != {}
      invariant remaining <= list.Keys
      invariant |domains| + |remaining| == |list.Keys|
      invariant forall key :: key in list && key !in remaining ==> list[key] in domains
      invariant forall i :: 0 <= i < |domains| ==>
        Fold(domains[i]) in list && Fold(domains[i]) !in remaining && list[Fold(domains[i])] == domains[i]
      invariant forall i, j :: 0 <= i < j < |domains| ==> Fold(domains[i]) != Fold(domains[j])
      decreases |remaining|
    {
      var key :| key in remaining;
      domains := domains + [list[key]];
      remaining := remaining - {key};
    }
  }

  /**
    Adding a name that was not listed and then listing the set: the listing
    holds the name as it was added, trailing dots trimmed, and still holds
    every spelling stored before.
  */
  method AddThenList(list: AllowList, domain: string) returns (domains: seq<string>)
    requires Valid(list)
    ensures !IsBlank(domain) && !Contains(list, TrimEnd(domain, '.')) ==> TrimEnd(domain, '.') in domains
    ensures forall key :: key in list ==> list[key] in domains
  {
    var added := AddAllowedDomain(list, domain);
    domains := GetAllowedDomains(added);
  }
}
