/**
 * The FlowFact object (src/FlowFact.php): the in-memory index of
 * extracted objects keyed by object id, the filters `getItems` applies,
 * the texts map for labels, and the queries over the index.
 *
 * The process-wide settings it reads are parameters: `slugDefault` for
 * `$SLUGIFY_IDENTIFIER_BY_DEFAULT`, `mapper` for `$DEFAULT_TEXT_MAPPER`,
 * `dev` for `_isDev()`. The files under BASE_DIR are a DataStorage
 * object; `glob` results are given as `listing`.
 */
module FlowFactStore {
  import opened Php
  import opened PhpArrays
  import opened PhpStrings
  import opened Xml
  import opened TextMapping
  import opened ImmoObjects
  import opened Ingestion

  // ---------------------------------------------------------------------
  // Filters (FlowFactFilter and its two implementations)

  type Filter = ImmoObject -> bool

  predicate PassesAll(filters: seq<Filter>, o: ImmoObject) {
    forall i :: 0 <= i < |filters| ==> filters[i](o)
  }

  function AllFilters(filters: seq<Filter>): Filter {
    o => PassesAll(filters, o)
  }

  /** FlowFactFilterKauf: objects for sale. */
  const KaufFilter: Filter := o => IsKauf(o)

  /** FlowFactFilterMiete: objects for rent. */
  const MieteFilter: Filter := o => IsMiete(o)

  /** Filters are ANDed: adding filters can only narrow the selection. */
  lemma FiltersAreAnded(f: seq<Filter>, g: seq<Filter>, o: ImmoObject)
    ensures PassesAll(f + g, o) <==> PassesAll(f, o) && PassesAll(g, o)
  {
    if PassesAll(f, o) && PassesAll(g, o) {
      forall i | 0 <= i < |f + g| ensures (f + g)[i](o) {
        if i >= |f| {
          assert (f + g)[i] == g[i - |f|];
        }
      }
    }
    if PassesAll(f + g, o) {
      forall i | 0 <= i < |g| ensures g[i](o) {
        assert (f + g)[|f| + i] == g[i];
      }
      forall i | 0 <= i < |f| ensures f[i](o) {
        assert (f + g)[i] == f[i];
      }
    }
  }

  /** Two filters select what both accept. */
  lemma TwoFilters(f: Filter, g: Filter, o: ImmoObject)
    ensures AllFilters([f, g])(o) <==> f(o) && g(o)
  {
    assert [f, g][0] == f && [f, g][1] == g;
  }

  /** With both the sale and the rent filter, only objects marketed both ways are selected. */
  lemma KaufAndMieteFilter(items: seq<(string, ImmoObject)>)
    ensures forall e :: e in FilterValues(items, AllFilters([KaufFilter, MieteFilter])) <==>
      e in items && IsKauf(e.1) && IsMiete(e.1)
  {
    FilterValuesSpec(items, AllFilters([KaufFilter, MieteFilter]));
    forall o ensures AllFilters([KaufFilter, MieteFilter])(o) <==> IsKauf(o) && IsMiete(o) {
      TwoFilters(KaufFilter, MieteFilter, o);
    }
  }

  // ---------------------------------------------------------------------
  // The index built from the extract directory
  //
  // The id each object is filed under is given to the lemmas as the
  // function `key`; for the FlowFact object it is ObjectKey(slugDefault).

  /** Every directory the glob over EXTRACT_DIR lists holds an openimmo.xml. */
  predicate Listed(listing: seq<string>, ext: map<string, Dir>) {
    forall i :: 0 <= i < |listing| ==> listing[i] in ext && ext[listing[i]].immobilie.Some?
  }

  /** `$immoObject->getId()`, the id getItems and getItem look an object up by. */
  function ObjectKey(slugDefault: bool): ImmoObject -> string {
    o => GetId(o, None, slugDefault)
  }

  /** Each listed object under its id, in listing order. */
  function ImportPairs(ext: map<string, Dir>, listing: seq<string>, key: ImmoObject -> string): seq<(string, ImmoObject)>
    requires Listed(listing, ext)
  {
    if listing == [] then []
    else
      var o := ImmoObject(ext[listing[|listing| - 1]].immobilie.value);
      ImportPairs(ext, listing[..|listing| - 1], key) + [(key(o), o)]
  }

  function ImportSpec(ext: map<string, Dir>, listing: seq<string>, key: ImmoObject -> string): seq<(string, ImmoObject)>
    requires Listed(listing, ext)
  {
    FromPairs(ImportPairs(ext, listing, key))
  }

  lemma ListedPrefix(ext: map<string, Dir>, listing: seq<string>, n: nat)
    requires Listed(listing, ext) && n <= |listing|
    ensures Listed(listing[..n], ext)
  {
  }

  /** One more listed directory: its object is assigned under its id. */
  lemma ImportStep(ext: map<string, Dir>, listing: seq<string>, i: nat, key: ImmoObject -> string)
    requires Listed(listing, ext) && i < |listing|
    requires Listed(listing[..i], ext) && Listed(listing[..i + 1], ext)
    ensures var o := ImmoObject(ext[listing[i]].immobilie.value);
      ImportSpec(ext, listing[..i + 1], key) == Assign(ImportSpec(ext, listing[..i], key), key(o), o)
  {
    var o := ImmoObject(ext[listing[i]].immobilie.value);
    assert ImportPairs(ext, listing[..i + 1], key) == ImportPairs(ext, listing[..i], key) + [(key(o), o)] by {
      assert listing[..i + 1][..i] == listing[..i];
    }
    FromPairsSnoc(ImportPairs(ext, listing[..i], key), (key(o), o));
  }

  lemma {:induction false} ImportPairsKeys(ext: map<string, Dir>, listing: seq<string>, key: ImmoObject -> string)
    requires Listed(listing, ext)
    ensures KeyedPairs(ImportPairs(ext, listing, key), key)
    ensures |ImportPairs(ext, listing, key)| == |listing|
  {
    if listing != [] {
      ImportPairsKeys(ext, listing[..|listing| - 1], key);
    }
  }

  /**
   * The index holds each object id once, in order of first appearance in
   * the listing, with the object of the last directory listed for it,
   * and every entry is keyed by its object's id.
   */
  lemma ImportLastWins(ext: map<string, Dir>, listing: seq<string>, key: ImmoObject -> string)
    requires Listed(listing, ext)
    ensures var (ps, r) := (ImportPairs(ext, listing, key), ImportSpec(ext, listing, key));
      Keys(r) == Dedup(Keys(ps)) && UniqueKeys(r) && forall id :: Get(r, id) == LastValue(ps, id)
    ensures KeyedPairs(ImportSpec(ext, listing, key), key)
  {
    var ps := ImportPairs(ext, listing, key);
    FromPairsSpec(ps);
    ImportPairsKeys(ext, listing, key);
    FromPairsKeyed(ps, key);
  }

  /** The imported items never hold an id twice. */
  lemma ImportUnique(ext: map<string, Dir>, listing: seq<string>, key: ImmoObject -> string)
    requires Listed(listing, ext)
    ensures UniqueKeys(ImportSpec(ext, listing, key))
  {
    FromPairsSpec(ImportPairs(ext, listing, key));
  }

  // ---------------------------------------------------------------------
  // Next and previous (getNextOf / getPrevOf)

  /** The argument of getNextOf/getPrevOf: an id string, an ImmoObject, or any other value. */
  datatype Target = ById(id: string) | ByObject(o: ImmoObject) | OtherValue

  /**
   * `array_values($items)[array_search($id, array_keys($items)) + 1] ?? null`;
   * a missing id makes the search return `false`, which counts as 0.
   */
  function NextOfId(items: seq<(string, ImmoObject)>, id: string): Option<ImmoObject> {
    var n := match IndexOf(items, id) case Some(i) => i + 1 case None => 1;
    if n < |items| then Some(items[n].1) else None
  }

  /** `... [array_search(...) - 1] ?? null`: `false - 1` is -1, which is never an index. */
  function PrevOfId(items: seq<(string, ImmoObject)>, id: string): Option<ImmoObject> {
    match IndexOf(items, id)
    case Some(i) => if i >= 1 then Some(items[i - 1].1) else None
    case None => None
  }

  /** On the key at position `i`, next and previous are the neighbours at `i + 1` and `i - 1`. */
  lemma NextPrevPositions(items: seq<(string, ImmoObject)>, i: nat)
    requires UniqueKeys(items) && i < |items|
    ensures NextOfId(items, items[i].0) == if i + 1 < |items| then Some(items[i + 1].1) else None
    ensures PrevOfId(items, items[i].0) == if i >= 1 then Some(items[i - 1].1) else None
  {
    GetAt(items, i);
  }

  /** Next undoes previous and previous undoes next, away from the ends. */
  lemma NextPrevInverse(items: seq<(string, ImmoObject)>, i: nat)
    requires UniqueKeys(items) && i + 1 < |items|
    ensures NextOfId(items, items[i].0) == Some(items[i + 1].1)
    ensures PrevOfId(items, items[i + 1].0) == Some(items[i].1)
  {
    NextPrevPositions(items, i);
    NextPrevPositions(items, i + 1);
  }

  /** An unknown id: next gives the second item, previous gives nothing. */
  lemma UnknownIdQuirk(items: seq<(string, ImmoObject)>, id: string)
    requires id !in Keys(items)
    ensures NextOfId(items, id) == if |items| > 1 then Some(items[1].1) else None
    ensures PrevOfId(items, id) == None
  {
  }

  // ---------------------------------------------------------------------
  // getLocations

  /** The key `$loc[$unique_by]` gives the entry in getLocations. */
  datatype LocKey = IntKey(n: int) | StrKey(s: string)

  /**
   * `$loc[$unique_by]`: the integer postal code, a string field, a
   * coordinate truncated to an integer key, or `null` (the key "") for an
   * unknown field.
   */
  function LocKeyOf(l: Location, field: string): LocKey {
    if field == "plz" then IntKey(l.plz)
    else if field == "ort" then StrKey(l.ort)
    else if field == "strasse" then StrKey(l.strasse)
    else if field == "hausnummer" then StrKey(l.hausnummer)
    else if field == "land" then StrKey(l.land)
    else if field == "lat" then IntKey(IntCast(l.lat))
    else if field == "lng" then IntKey(IntCast(l.lng))
    else StrKey("")
  }

  predicate Keyed(uniqueBy: Option<string>) {
    uniqueBy.Some? && Truthy(uniqueBy.value)
  }

  /** `$item->getLocation()` for every item, in order. */
  function Locations(items: seq<(string, ImmoObject)>): (r: seq<Location>)
    ensures |r| == |items|
    ensures forall i :: 0 <= i < |items| ==> r[i] == GetLocation(items[i].1)
  {
    seq(|items|, i requires 0 <= i < |items| => GetLocation(items[i].1))
  }

  function LocationPairs(items: seq<(string, ImmoObject)>, field: string): seq<(LocKey, Location)> {
    KeyedBy(Locations(items), l => LocKeyOf(l, field))
  }

  /** The list form: `$locations[] = $loc` numbers the locations 0, 1, ... */
  function LocationList(items: seq<(string, ImmoObject)>): (r: seq<(LocKey, Location)>)
    ensures |r| == |items|
    ensures forall i :: 0 <= i < |items| ==> r[i] == (IntKey(i), GetLocation(items[i].1))
  {
    seq(|items|, i requires 0 <= i < |items| => (IntKey(i), GetLocation(items[i].1)))
  }

  function LocationsSpec(items: seq<(string, ImmoObject)>, uniqueBy: Option<string>): seq<(LocKey, Location)> {
    if Keyed(uniqueBy) then FromPairs(LocationPairs(items, uniqueBy.value)) else LocationList(items)
  }

  /**
   * Keyed by a field, getLocations holds one location per distinct key
   * value, in order of first appearance, each location being the last
   * one with that key; otherwise it lists every item's location in order.
   */
  lemma LocationsSpecProps(items: seq<(string, ImmoObject)>, uniqueBy: Option<string>)
    ensures !Keyed(uniqueBy) ==> |LocationsSpec(items, uniqueBy)| == |items|
    ensures !Keyed(uniqueBy) ==>
      forall i :: 0 <= i < |items| ==> LocationsSpec(items, uniqueBy)[i] == (IntKey(i), GetLocation(items[i].1))
    ensures Keyed(uniqueBy) ==>
      var (ps, r) := (LocationPairs(items, uniqueBy.value), LocationsSpec(items, uniqueBy));
      Keys(r) == Dedup(Keys(ps)) && UniqueKeys(r) &&
      (forall i :: 0 <= i < |r| ==> LocKeyOf(r[i].1, uniqueBy.value) == r[i].0) &&
      forall k :: Get(r, k) == LastValue(ps, k)
  {
    if Keyed(uniqueBy) {
      var ps := LocationPairs(items, uniqueBy.value);
      FromPairsSpec(ps);
      FromPairsKeyed(ps, l => LocKeyOf(l, uniqueBy.value));
    }
  }

  // ---------------------------------------------------------------------
  // getUniqueCategories

  /** `$item->getKategorien()` for every item, in order. */
  function PerItem(items: seq<(string, ImmoObject)>, labels: Labels): (r: seq<Result<seq<(string, Category)>>>)
    ensures |r| == |items|
    ensures forall i :: 0 <= i < |items| ==> r[i] == KategorienSpec(items[i].1, labels)
  {
    seq(|items|, i requires 0 <= i < |items| => KategorienSpec(items[i].1, labels))
  }

  /** `$categories[$category_data['key']] = $category_data` takes the key from the category itself. */
  function CategoryKey(c: Category): string {
    c.key
  }

  /** The categories of all results in order, each paired with its own key; the first failure is the outcome. */
  function CategoryList(rs: seq<Result<seq<(string, Category)>>>): Result<seq<(string, Category)>> {
    if rs == [] then Ok([])
    else
      match CategoryList(rs[..|rs| - 1])
      case TypeError(e) => TypeError(e)
      case Ok(ps) =>
        match rs[|rs| - 1]
        case TypeError(e) => TypeError(e)
        case Ok(cs) => Ok(ps + KeyedBy(Values(cs), CategoryKey))
  }

  function UniqueCategoriesSpec(items: seq<(string, ImmoObject)>, labels: Labels): Result<seq<(string, Category)>> {
    match CategoryList(PerItem(items, labels))
    case TypeError(e) => TypeError(e)
    case Ok(ps) => Ok(FromPairs(ps))
  }

  lemma {:induction false} CategoryListFails(rs: seq<Result<seq<(string, Category)>>>)
    ensures CategoryList(rs).TypeError? <==> exists i :: 0 <= i < |rs| && rs[i].TypeError?
    ensures CategoryList(rs).Ok? ==> KeyedPairs(CategoryList(rs).value, CategoryKey)
  {
    if rs != [] {
      var init := rs[..|rs| - 1];
      CategoryListFails(init);
      assert forall i :: 0 <= i < |init| ==> init[i] == rs[i];
      if CategoryList(init).Ok? && rs[|rs| - 1].Ok? {
        var ps: seq<(string, Category)> := CategoryList(init).value;
        var ks: seq<(string, Category)> := KeyedBy(Values(rs[|rs| - 1].value), CategoryKey);
        forall j | 0 <= j < |ps + ks| ensures (ps + ks)[j].0 == CategoryKey((ps + ks)[j].1) {
          if j >= |ps| {
            assert (ps + ks)[j] == ks[j - |ps|];
          }
        }
      }
    }
  }

  /** The first failing result is the outcome of the whole list. */
  lemma {:induction false} CategoryListStops(rs: seq<Result<seq<(string, Category)>>>, i: nat)
    requires i < |rs| && CategoryList(rs[..i]).Ok? && rs[i].TypeError?
    ensures CategoryList(rs) == TypeError(rs[i].reason)
    decreases |rs|
  {
    var init := rs[..|rs| - 1];
    if |rs| == i + 1 {
      assert init == rs[..i];
    } else {
      assert init[..i] == rs[..i];
      CategoryListStops(init, i);
    }
  }

  /**
   * getUniqueCategories fails iff some item's getKategorien fails;
   * otherwise it holds each category key once, in order of first
   * appearance, with the category last seen under it.
   */
  lemma UniqueCategoriesSpecProps(items: seq<(string, ImmoObject)>, labels: Labels)
    ensures UniqueCategoriesSpec(items, labels).TypeError? <==>
      exists i :: 0 <= i < |items| && KategorienSpec(items[i].1, labels).TypeError?
    ensures UniqueCategoriesSpec(items, labels).Ok? ==>
      var (ps, r) := (CategoryList(PerItem(items, labels)).value, UniqueCategoriesSpec(items, labels).value);
      Keys(r) == Dedup(Keys(ps)) && UniqueKeys(r) &&
      (forall i :: 0 <= i < |r| ==> r[i].1.key == r[i].0) &&
      forall k :: Get(r, k) == LastValue(ps, k)
  {
    var rs := PerItem(items, labels);
    CategoryListFails(rs);
    if CategoryList(rs).Ok? {
      var ps := CategoryList(rs).value;
      FromPairsSpec(ps);
      FromPairsKeyed(ps, CategoryKey);
    }
  }

  /** One assignment of getUniqueCategories' inner loop extends the pairs by one. */
  lemma CategoryStepPairs(ps: seq<(string, Category)>, cs: seq<(string, Category)>, j: nat)
    requires j < |cs|
    ensures FromPairs(ps + KeyedBy(Values(cs[..j + 1]), CategoryKey)) ==
      Assign(FromPairs(ps + KeyedBy(Values(cs[..j]), CategoryKey)), cs[j].1.key, cs[j].1)
  {
    var a := KeyedBy(Values(cs[..j]), CategoryKey);
    assert KeyedBy(Values(cs[..j + 1]), CategoryKey) == a + [(cs[j].1.key, cs[j].1)];
    assert ps + KeyedBy(Values(cs[..j + 1]), CategoryKey) == (ps + a) + [(cs[j].1.key, cs[j].1)];
    FromPairsSnoc(ps + a, (cs[j].1.key, cs[j].1));
  }

  /** One iteration of getLocations' loop. */
  lemma LocationStep(its: seq<(string, ImmoObject)>, i: nat, uniqueBy: Option<string>)
    requires i < |its|
    ensures var loc := GetLocation(its[i].1);
      var prev := LocationsSpec(its[..i], uniqueBy);
      LocationsSpec(its[..i + 1], uniqueBy) ==
        if Keyed(uniqueBy) then Assign(prev, LocKeyOf(loc, uniqueBy.value), loc) else prev + [(IntKey(|prev|), loc)]
  {
    var loc := GetLocation(its[i].1);
    if Keyed(uniqueBy) {
      var f := uniqueBy.value;
      assert LocationPairs(its[..i + 1], f) == LocationPairs(its[..i], f) + [(LocKeyOf(loc, f), loc)];
      FromPairsSnoc(LocationPairs(its[..i], f), (LocKeyOf(loc, f), loc));
    } else {
      assert LocationList(its[..i + 1]) == LocationList(its[..i]) + [(IntKey(i), loc)];
    }
  }

  // ---------------------------------------------------------------------
  // The ingestion pass over the whole base directory

  /**
   * Outside development mode, a pass over all the archives, in any order,
   * leaves none behind when they do not collide, so the store is up to
   * date afterwards.
   */
  lemma PassLeavesNoArchives(p: Pass, s: seq<Archive>, objectId: Node -> string)
    requires multiset(s) == multiset(p.zips)
    requires Independent(p.extracted, s, EffectKeys(objectId))
    ensures Run(p, s, false, objectId).zips == []
  {
    var r := Run(p, s, false, objectId).zips;
    RunUnlinksAll(p, s, false, objectId);
    forall z | z in p.zips ensures z !in r {
      assert z in multiset(s);
      var j :| 0 <= j < |s| && s[j] == z;
    }
    assert forall i :: 0 <= i < |r| ==> r[i] in r;
  }

  /** The order updateDataStorage uses is one such order. */
  lemma SortedPassLeavesNoArchives(p: Pass, objectId: Node -> string)
    requires Independent(p.extracted, SortByToken(p.zips), EffectKeys(objectId))
    ensures Run(p, SortByToken(p.zips), false, objectId).zips == []
  {
    SortByTokenSpec(p.zips);
    PassLeavesNoArchives(p, SortByToken(p.zips), objectId);
  }

  // ---------------------------------------------------------------------
  // The FlowFact object

  class FlowFact {
    var items: Option<seq<(string, ImmoObject)>>
    var filters: seq<Filter>
    var textsMap: map<string, string>

    /** Every PHP array has distinct keys. */
    predicate Valid()
      reads this
    {
      items.Some? ==> UniqueKeys(items.value)
    }

    /** `new FlowFact($importImmosFromFilesystem)` */
    constructor(fs: DataStorage, listing: seq<string>, importImmos: bool, slugDefault: bool)
      requires Listed(listing, fs.extracted)
      ensures Valid()
      ensures items == if importImmos then Some(ImportSpec(fs.extracted, listing, ObjectKey(slugDefault))) else None
      ensures filters == [] && textsMap == map[]
    {
      items := None;
      filters := [];
      textsMap := map[];
      new;
      if importImmos {
        ImportImmosFromFilesystem(fs, listing, slugDefault);
      }
    }

    /** The labels mapString uses: this object's texts map and the default text mapper. */
    function TextLabels(mapper: Option<string -> string>): Labels
      reads this
    {
      Labels(textsMap, mapper)
    }

    /** `updateDataStorage()` */
    method UpdateDataStorage(fs: DataStorage, dev: bool, slugDefault: bool)
      modifies fs
      ensures var r := Run(Pass(old(fs.extracted), old(fs.zips), []), SortByToken(old(fs.zips)), dev, ObjectIds(slugDefault));
        fs.extracted == r.extracted && fs.zips == r.zips && fs.idIndex == Some(r.ids)
    {
      var zipFiles := SortByToken(fs.zips);
      ghost var p0 := Pass(fs.extracted, fs.zips, []);
      var existingIds: seq<string> := [];
      var i := 0;
      while i < |zipFiles|
        invariant 0 <= i <= |zipFiles|
        invariant Pass(fs.extracted, fs.zips, existingIds) == Run(p0, zipFiles[..i], dev, ObjectIds(slugDefault))
      {
        var a := zipFiles[i];
        RunSnoc(p0, zipFiles, i, dev, ObjectIds(slugDefault));
        if DirExists(fs.extracted, a.name) {
          i := i + 1;
          continue;
        }
        fs.extracted := fs.extracted[a.name := a.content];
        if !dev {
          fs.zips := Unlink(fs.zips, a.name);
        }
        if a.content.immobilie.None? {
          fs.extracted := Rename(fs.extracted, a.name, Broken(a.name));
        } else {
          var x := a.content.immobilie.value;
          var id := GetId(ImmoObject(x), None, slugDefault);
          if DirExists(fs.extracted, id) {
            fs.extracted := RemoveTree(fs.extracted, id);
          }
          if Text(Path(Some(x), ["verwaltung_techn", "aktion", "aktionart"])) == "DELETE" {
            fs.extracted := RemoveTree(fs.extracted, a.name);
          } else {
            existingIds := existingIds + [id];
            fs.extracted := Rename(fs.extracted, a.name, id);
          }
        }
        i := i + 1;
      }
      assert zipFiles[..i] == zipFiles;
      fs.idIndex := Some(existingIds);
    }

    /** `isUpToDate()`: no zip archive is waiting in the base directory. */
    predicate IsUpToDate(fs: DataStorage)
      reads fs
    {
      |fs.zips| == 0
    }

    /** `importImmosFromFilesystem()` */
    method ImportImmosFromFilesystem(fs: DataStorage, listing: seq<string>, slugDefault: bool)
      requires Listed(listing, fs.extracted)
      modifies this
      ensures items == Some(ImportSpec(fs.extracted, listing, ObjectKey(slugDefault)))
      ensures filters == old(filters) && textsMap == old(textsMap)
      ensures Valid()
    {
      var its := ImportAll(fs.extracted, listing, slugDefault);
      ImportUnique(fs.extracted, listing, ObjectKey(slugDefault));
      items := Some(its);
    }

    /** The loop of `importImmosFromFilesystem()`: one object per listed directory, keyed by its id. */
    static method ImportAll(ext: map<string, Dir>, listing: seq<string>, slugDefault: bool)
      returns (its: seq<(string, ImmoObject)>)
      requires Listed(listing, ext)
      ensures its == ImportSpec(ext, listing, ObjectKey(slugDefault))
    {
      its := [];
      var i := 0;
      while i < |listing|
        invariant 0 <= i <= |listing|
        invariant Listed(listing[..i], ext)
        invariant its == ImportSpec(ext, listing[..i], ObjectKey(slugDefault))
      {
        var immoObject := ImmoObject(ext[listing[i]].immobilie.value);
        ListedPrefix(ext, listing, i + 1);
        ImportStep(ext, listing, i, ObjectKey(slugDefault));
        its := Assign(its, GetId(immoObject, None, slugDefault), immoObject);
        i := i + 1;
      }
      assert listing[..i] == listing;
    }

    /**
     * `getItems($resetFilters, $importIfNeeded)`: the indexed items every
     * filter accepts, in index order; without an index and without
     * importing there is nothing to iterate.
     */
    method GetItems(resetFilters: bool, importIfNeeded: bool, fs: DataStorage, listing: seq<string>, slugDefault: bool)
      returns (r: seq<(string, ImmoObject)>)
      requires Listed(listing, fs.extracted)
      requires Valid()
      modifies this
      ensures items == if old(items).None? && importIfNeeded then Some(ImportSpec(fs.extracted, listing, ObjectKey(slugDefault))) else old(items)
      ensures r == FilterValues(items.GetOr([]), AllFilters(old(filters)))
      ensures filters == if resetFilters then [] else old(filters)
      ensures textsMap == old(textsMap)
      ensures Valid()
    {
      if items.None? && importIfNeeded {
        ImportImmosFromFilesystem(fs, listing, slugDefault);
      }
      var its := items.GetOr([]);
      var tmp := [];
      var i := 0;
      while i < |its|
        modifies {}
        invariant 0 <= i <= |its|
        invariant tmp == FilterValues(its[..i], AllFilters(filters))
      {
        var (objectId, item) := its[i];
        var keep := true;
        var j := 0;
        while j < |filters|
          invariant 0 <= j <= |filters|
          invariant keep && forall k :: 0 <= k < j ==> filters[k](item)
        {
          if !filters[j](item) {
            keep := false;
            break;
          }
          j := j + 1;
        }
        assert keep == AllFilters(filters)(item);
        assert its[..i + 1][..i] == its[..i];
        if keep {
          tmp := tmp + [(objectId, item)];
        }
        i := i + 1;
      }
      assert its[..i] == its;
      if resetFilters {
        filters := [];
      }
      r := tmp;
    }

    /**
     * `getItem($object_id)` as written: without an index it reads the
     * object's directory, and for a missing one returns `false`, which the
     * declared `?ImmoObject` result refuses with a TypeError.
     */
    function GetItemAsWritten(objectId: string, fs: DataStorage): Result<Option<ImmoObject>>
      reads this, fs
    {
      match items
      case Some(its) => Ok(Get(its, objectId))
      case None =>
        if objectId in fs.extracted && fs.extracted[objectId].immobilie.Some?
        then Ok(Some(ImmoObject(fs.extracted[objectId].immobilie.value)))
        else TypeError("getItem(): return value must be of type ?ImmoObject, bool returned")
    }

    /** `getItem($object_id)` with the evidently intended `null` for a missing object. */
    function GetItem(objectId: string, fs: DataStorage): (r: Option<ImmoObject>)
      reads this, fs
      ensures items.Some? ==> r == Get(items.value, objectId)
      ensures items.None? ==> (r.Some? <==> objectId in fs.extracted && fs.extracted[objectId].immobilie.Some?)
      ensures items.None? && r.Some? ==> r.value == ImmoObject(fs.extracted[objectId].immobilie.value)
    {
      match items
      case Some(its) => Get(its, objectId)
      case None =>
        if objectId in fs.extracted && fs.extracted[objectId].immobilie.Some?
        then Some(ImmoObject(fs.extracted[objectId].immobilie.value))
        else None
    }

    /**
     * The written getItem agrees with the intended one wherever it returns,
     * and fails exactly for a missing object when there is no index.
     */
    lemma GetItemFinding(objectId: string, fs: DataStorage)
      ensures GetItemAsWritten(objectId, fs).TypeError? <==> items.None? && GetItem(objectId, fs).None?
      ensures GetItemAsWritten(objectId, fs).Ok? ==> GetItemAsWritten(objectId, fs).value == GetItem(objectId, fs)
    {
    }

    /** The lookup behind getNextOf: `array_keys(null)` is a TypeError without an index. */
    function NextById(id: string): Result<Option<ImmoObject>>
      reads this
    {
      match items
      case None => TypeError("array_keys(): argument #1 must be of type array, null given")
      case Some(its) => Ok(NextOfId(its, id))
    }

    /** The lookup behind getPrevOf. */
    function PrevById(id: string): Result<Option<ImmoObject>>
      reads this
    {
      match items
      case None => TypeError("array_keys(): argument #1 must be of type array, null given")
      case Some(its) => Ok(PrevOfId(its, id))
    }

    /** `getNextOf($id_or_immoobject)`: neither an id nor an object gives `null`. */
    function GetNextOf(t: Target, slugDefault: bool): Result<Option<ImmoObject>>
      reads this
    {
      match t
      case ById(id) => NextById(id)
      case ByObject(o) => NextById(GetId(o, None, slugDefault))
      case OtherValue => Ok(None)
    }

    /** `getPrevOf($id_or_immoobject)` */
    function GetPrevOf(t: Target, slugDefault: bool): Result<Option<ImmoObject>>
      reads this
    {
      match t
      case ById(id) => PrevById(id)
      case ByObject(o) => PrevById(GetId(o, None, slugDefault))
      case OtherValue => Ok(None)
    }

    /**
     * An indexed object's neighbours, looked up by the object itself,
     * are the items next to it in the index.
     */
    lemma NeighboursOfIndexedObject(i: nat, slugDefault: bool)
      requires Valid() && items.Some? && i < |items.value|
      requires items.value[i].0 == GetId(items.value[i].1, None, slugDefault)
      ensures var its := items.value;
        GetNextOf(ByObject(its[i].1), slugDefault) == Ok(if i + 1 < |its| then Some(its[i + 1].1) else None) &&
        GetPrevOf(ByObject(its[i].1), slugDefault) == Ok(if i >= 1 then Some(its[i - 1].1) else None)
    {
      NextPrevPositions(items.value, i);
    }

    /**
     * Without an index, looking up a neighbour by id or by object is a
     * TypeError; an argument that is neither gives `null` in any case.
     */
    lemma NeighboursWithoutIndex(t: Target, slugDefault: bool)
      ensures t.OtherValue? ==> GetNextOf(t, slugDefault) == Ok(None) && GetPrevOf(t, slugDefault) == Ok(None)
      ensures !t.OtherValue? ==>
        (GetNextOf(t, slugDefault).TypeError? <==> items.None?) && (GetPrevOf(t, slugDefault).TypeError? <==> items.None?)
    {
    }

    /** `getUniqueCategories()`: iterating no index gives no categories. */
    method GetUniqueCategories(labels: Labels) returns (r: Result<seq<(string, Category)>>)
      ensures r == UniqueCategoriesSpec(items.GetOr([]), labels)
    {
      var its := items.GetOr([]);
      ghost var rs := PerItem(its, labels);
      ghost var ps: seq<(string, Category)> := [];
      var categories: seq<(string, Category)> := [];
      var i := 0;
      while i < |its|
        invariant 0 <= i <= |its|
        invariant CategoryList(rs[..i]) == Ok(ps)
        invariant categories == FromPairs(ps)
      {
        var kategorien := GetKategorien(its[i].1, labels);
        assert rs[..i + 1][..i] == rs[..i];
        if kategorien.TypeError? {
          CategoryListStops(rs, i);
          return TypeError(kategorien.reason);
        }
        var cs := kategorien.value;
        assert ps + KeyedBy(Values(cs[..0]), CategoryKey) == ps;
        var j := 0;
        while j < |cs|
          invariant 0 <= j <= |cs|
          invariant categories == FromPairs(ps + KeyedBy(Values(cs[..j]), CategoryKey))
        {
          var categoryData := cs[j].1;
          CategoryStepPairs(ps, cs, j);
          categories := Assign(categories, categoryData.key, categoryData);
          j := j + 1;
        }
        assert cs[..j] == cs;
        ps := ps + KeyedBy(Values(cs), CategoryKey);
        i := i + 1;
      }
      assert rs[..i] == rs;
      return Ok(categories);
    }

    /** `getLocations($unique_by)` */
    method GetLocations(uniqueBy: Option<string>) returns (r: seq<(LocKey, Location)>)
      ensures r == LocationsSpec(items.GetOr([]), uniqueBy)
    {
      var its := items.GetOr([]);
      var locations: seq<(LocKey, Location)> := [];
      var i := 0;
      while i < |its|
        invariant 0 <= i <= |its|
        invariant locations == LocationsSpec(its[..i], uniqueBy)
      {
        var loc := GetLocation(its[i].1);
        LocationStep(its, i, uniqueBy);
        if uniqueBy.Some? && Truthy(uniqueBy.value) {
          locations := Assign(locations, LocKeyOf(loc, uniqueBy.value), loc);
        } else {
          locations := locations + [(IntKey(|locations|), loc)];
        }
        i := i + 1;
      }
      assert its[..i] == its;
      r := locations;
    }

    /** `getFilters()` */
    function GetFilters(): seq<Filter>
      reads this
    {
      filters
    }

    /** `setFilters($filters)` */
    method SetFilters(fs: seq<Filter>)
      requires Valid()
      modifies this
      ensures filters == fs && items == old(items) && textsMap == old(textsMap)
      ensures Valid()
    {
      filters := fs;
    }

    /** `clearFilters()` */
    method ClearFilters()
      requires Valid()
      modifies this
      ensures filters == [] && items == old(items) && textsMap == old(textsMap)
      ensures Valid()
    {
      filters := [];
    }

    /** `addFilter($filter)`: filters apply on top of each other. */
    method AddFilter(f: Filter)
      requires Valid()
      modifies this
      ensures filters == old(filters) + [f] && items == old(items) && textsMap == old(textsMap)
      ensures forall o :: PassesAll(filters, o) <==> PassesAll(old(filters), o) && f(o)
      ensures Valid()
    {
      filters := filters + [f];
      forall o ensures PassesAll(filters, o) <==> PassesAll(old(filters), o) && f(o) {
        FiltersAreAnded(old(filters), [f], o);
        assert [f][0] == f;
      }
    }

    /** `getTextsMap()` */
    function GetTextsMap(): map<string, string>
      reads this
    {
      textsMap
    }

    /** `setTextsMap($map)` */
    method SetTextsMap(m: map<string, string>)
      requires Valid()
      modifies this
      ensures textsMap == m && items == old(items) && filters == old(filters)
      ensures Valid()
    {
      textsMap := m;
    }
  }
}
