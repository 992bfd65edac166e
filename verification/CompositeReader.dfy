/** A reader that adds overviews from separate files to the assets of a base reader. */
module CompositeReader {
  import opened Wrappers
  import opened AssetKeys
  import CW = CompositeWriter
  import StableSort

  datatype AssetType = Image | Text | Data | Graphics

  /** An asset: an overview under its new key, or one of the base reader's. */
  datatype Asset = Overview(key: string, provider: nat) | OfBase(id: nat)

  datatype BaseReader = BaseReader(getAsset: string -> Result<Asset, nat>, hasAsset: string -> bool,
                                   keys: (Option<AssetType>, Option<seq<string>>) -> seq<string>)

  /** An overview of a level of the first image. */
  datatype Entry = Entry(level: nat, provider: nat)

  const FIRST_IMAGE := "image:0"

  function KeyOf(e: Entry): string { OverviewKey(FIRST_IMAGE, e.level) }

  // The number a key ends in, which the keys are sorted by.

  function AfterLastColon(s: string): string {
    if s == "" then "" else if s[|s| - 1] == ':' then "" else AfterLastColon(s[..|s| - 1]) + [s[|s| - 1]]
  }

  function SortKey(key: string): nat { ParseU32(AfterLastColon(key)).GetOr(0) }

  lemma {:induction false} ColonThenDigits(front: string, digits: string)
    requires Digits(digits)
    ensures AfterLastColon(front + ":" + digits) == digits
  {
    var s := front + ":" + digits;
    if digits != "" {
      assert s[..|s| - 1] == front + ":" + digits[..|digits| - 1];
      ColonThenDigits(front, digits[..|digits| - 1]);
    }
  }

  lemma SortKeyIsLevel(level: nat)
    requires level < U32_LIMIT
    ensures SortKey(OverviewKey(FIRST_IMAGE, level)) == level
  {
    var front := FIRST_IMAGE + ":overview";
    assert OverviewKey(FIRST_IMAGE, level) == front + ":" + Format(level);
    ColonThenDigits(front, Format(level));
    ParseOfFormat(level);
  }

  function SortKeys(keys: seq<string>): seq<string> { StableSort.SortBy(SortKey, keys) }

  // The reader.

  /** The overview a key names: of entries for the same level, the last one. */
  function FindOverview(entries: seq<Entry>, key: string): Option<Asset> {
    if entries == [] then None
    else if KeyOf(entries[|entries| - 1]) == key then Some(Overview(key, entries[|entries| - 1].provider))
    else FindOverview(entries[..|entries| - 1], key)
  }

  /** What asking for a key gives: an overview hides a base asset with the same key. */
  function Resolve(base: BaseReader, entries: seq<Entry>, key: string): Result<Asset, nat> {
    match FindOverview(entries, key)
    case Some(asset) => Ok(asset)
    case None => base.getAsset(key)
  }

  function Keys(entries: seq<Entry>): seq<string> {
    seq(|entries|, i requires 0 <= i < |entries| => KeyOf(entries[i]))
  }

  class CompositeDatasetReader {
    const base: BaseReader
    ghost const entries: seq<Entry>
    var overviews: map<string, nat>
    var overviewKeys: seq<string>
    var cache: map<string, Asset>

    ghost predicate Valid()
      reads this
    {
      && (forall k :: k in overviews <==> FindOverview(entries, k).Some?)
      && (forall k | k in overviews :: FindOverview(entries, k) == Some(Overview(k, overviews[k])))
      && (forall k | k in cache :: FindOverview(entries, k) == Some(cache[k]))
      && overviewKeys == SortKeys(Keys(entries))
    }

    constructor (base: BaseReader, entries: seq<Entry>)
      ensures Valid() && this.base == base && this.entries == entries && cache == map[]
    {
      this.base, this.entries := base, entries;
      overviews, overviewKeys, cache := map[], [], map[];
      new;
      for i := 0 to |entries|
        invariant cache == map[] && overviewKeys == Keys(entries[..i])
        invariant forall k :: k in overviews <==> FindOverview(entries[..i], k).Some?
        invariant forall k | k in overviews :: FindOverview(entries[..i], k) == Some(Overview(k, overviews[k]))
      {
        assert entries[..i + 1][..i] == entries[..i];
        var key := KeyOf(entries[i]);
        overviews := overviews[key := entries[i].provider];
        overviewKeys := overviewKeys + [key];
      }
      assert entries[..|entries|] == entries;
      overviewKeys := SortKeys(overviewKeys);
    }

    /** The cache never shows: the answer is the same at every call. */
    method GetAsset(key: string) returns (asset: Result<Asset, nat>)
      requires Valid()
      modifies this`cache
      ensures Valid()
      ensures asset == Resolve(base, entries, key)
    {
      if key in overviews {
        if key in cache {
          return Ok(cache[key]);
        }
        var found := Overview(key, overviews[key]);
        cache := cache[key := found];
        return Ok(found);
      }
      asset := base.getAsset(key);
    }

    method HasAsset(key: string) returns (has: bool)
      requires Valid()
      ensures has <==> FindOverview(entries, key).Some? || base.hasAsset(key)
      ensures (forall k :: base.hasAsset(k) <==> base.getAsset(k).Ok?) ==> (has <==> Resolve(base, entries, key).Ok?)
    {
      has := key in overviews || base.hasAsset(key);
    }

    /** The base reader's keys, then the overviews by ascending level unless the filter shuts them out. */
    method GetAssetKeys(assetType: Option<AssetType>, roles: Option<seq<string>>) returns (keys: seq<string>)
      requires Valid()
      ensures keys == base.keys(assetType, roles)
                      + (if (assetType == None || assetType == Some(Image)) && (roles == None || "overview" in roles.value)
                         then SortKeys(Keys(entries)) else [])
    {
      keys := base.keys(assetType, roles);
      if (assetType == None || assetType == Some(Image)) && (roles == None || "overview" in roles.value) {
        keys := keys + overviewKeys;
      }
    }

    method Close()
      requires Valid()
      modifies this`cache
      ensures Valid() && cache == map[]
    {
      cache := map[];
    }
  }

  lemma {:induction false} FindsListed(entries: seq<Entry>, key: string)
    ensures FindOverview(entries, key).Some? <==> key in Keys(entries)
    ensures FindOverview(entries, key).Some? ==> FindOverview(entries, key).value.Overview?
  {
    if entries != [] {
      var front, last := entries[..|entries| - 1], entries[|entries| - 1];
      FindsListed(front, key);
      assert Keys(entries) == Keys(front) + [KeyOf(last)];
    }
  }

  lemma SameElements<T>(a: seq<T>, b: seq<T>, x: T)
    requires multiset(a) == multiset(b)
    ensures x in a <==> x in b
  {
    assert x in a <==> x in multiset(a);
    assert x in b <==> x in multiset(b);
  }

  /** Exactly the listed overview keys resolve to overviews, and they are listed by ascending level. */
  lemma ListedKeysResolve(base: BaseReader, entries: seq<Entry>, key: string)
    ensures key in SortKeys(Keys(entries)) <==> FindOverview(entries, key).Some?
    ensures key in SortKeys(Keys(entries)) ==> Resolve(base, entries, key).Ok? && Resolve(base, entries, key).value.Overview?
    ensures key !in SortKeys(Keys(entries)) ==> Resolve(base, entries, key) == base.getAsset(key)
    ensures StableSort.Ascending(SortKey, SortKeys(Keys(entries)))
  {
    StableSort.SortBySorts(SortKey, Keys(entries), 0);
    FindsListed(entries, key);
    SameElements(SortKeys(Keys(entries)), Keys(entries), key);
  }

  /** Reader and writer agree: an overview listed for a level goes back to the writer of that level, as the image itself. */
  lemma ListedKeyRoutesBack(entries: seq<Entry>, i: nat, c: CW.Composite)
    requires i < |entries| && entries[i].level < U32_LIMIT
    ensures Keys(entries)[i] in SortKeys(Keys(entries))
    ensures SortKey(Keys(entries)[i]) == entries[i].level
    ensures c.Route(Keys(entries)[i])
            == match CW.FirstAt(c.rsets, entries[i].level)
               case Some(w) => Ok((CW.RSet(w), FIRST_IMAGE))
               case None => Err(CW.NoWriter(entries[i].level))
  {
    StableSort.SortBySorts(SortKey, Keys(entries), 0);
    SameElements(SortKeys(Keys(entries)), Keys(entries), Keys(entries)[i]);
    SortKeyIsLevel(entries[i].level);
    OverviewKeyBack(FIRST_IMAGE, entries[i].level);
  }

  /** The listed keys are those of overviews of the first image, spelled with their level in decimal. */
  lemma KeysSpelled(entries: seq<Entry>, i: nat)
    requires i < |entries| && entries[i].level < U32_LIMIT
    ensures Keys(entries)[i] == "image:0:overview:" + Format(entries[i].level)
    ensures ParseOverviewKey(Keys(entries)[i]) == Some(("image:0", entries[i].level))
  {
    assert FIRST_IMAGE + SEPARATOR == "image:0:overview:";
    OverviewKeyBack(FIRST_IMAGE, entries[i].level);
  }

  /** Different levels have different keys. */
  lemma KeysDiffer(a: nat, b: nat)
    requires a != b
    ensures OverviewKey(FIRST_IMAGE, a) != OverviewKey(FIRST_IMAGE, b)
  {
    if OverviewKey(FIRST_IMAGE, a) == OverviewKey(FIRST_IMAGE, b) {
      var front := FIRST_IMAGE + SEPARATOR;
      assert Format(a) == (front + Format(a))[|front|..];
      assert Format(b) == (front + Format(b))[|front|..];
      FormatBack(a);
      FormatBack(b);
    }
  }

  /** No entry from the k-th on is of the level. */
  predicate NoneOfLevel(entries: seq<Entry>, k: nat, level: nat) {
    forall j | k <= j < |entries| :: entries[j].level != level
  }

  /** The overview of a level comes from the last entry of that very level, whatever the entries of other levels are. */
  lemma {:induction false} LastOfLevelWins(entries: seq<Entry>, k: nat, level: nat)
    requires k <= |entries| && NoneOfLevel(entries, k, level)
    requires k > 0 ==> entries[k - 1].level == level
    ensures var key := OverviewKey(FIRST_IMAGE, level);
            FindOverview(entries, key) == if k == 0 then None else Some(Overview(key, entries[k - 1].provider))
  {
    if k < |entries| {
      var front, last := entries[..|entries| - 1], entries[|entries| - 1];
      KeysDiffer(last.level, level);
      assert NoneOfLevel(front, k, level) by {
        forall j | k <= j < |front| ensures front[j].level != level {
          assert front[j] == entries[j];
        }
      }
      LastOfLevelWins(front, k, level);
    }
  }
}
