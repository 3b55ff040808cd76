/**
 * ImmoObject (src/ImmoObject.php): one real-estate object, a read-only
 * wrapper around the `immobilie` element of its openimmo.xml, with the
 * accessors that turn the loosely typed XML into labelled, typed data.
 *
 * FlowFact's singleton settings that these accessors read are parameters
 * here: `slugDefault` is `FlowFact::$SLUGIFY_IDENTIFIER_BY_DEFAULT`,
 * `extractDir` is `FlowFact::$EXTRACT_DIR`, and `labels` carries the
 * texts map and `FlowFact::$DEFAULT_TEXT_MAPPER` that mapString reads.
 */
module ImmoObjects {
  import opened Php
  import opened PhpArrays
  import opened PhpStrings
  import opened Xml
  import opened TextMapping

  /** FlowFact::BOOL_TRUE and FlowFact::BOOL_FALSE: XML booleans are these strings. */
  const BOOL_TRUE: string := "true"
  const BOOL_FALSE: string := "false"

  datatype ImmoObject = ImmoObject(xml: Node)

  function Root(o: ImmoObject): Option<Node> {
    Some(o.xml)
  }

  // ---------------------------------------------------------------------
  // Identifier

  /** `(string)verwaltung_techn->objektnr_extern` */
  function RawId(o: ImmoObject): string {
    Text(Path(Root(o), ["verwaltung_techn", "objektnr_extern"]))
  }

  /** `strtolower(str_replace('#', '-', $id))` */
  function Slugify(id: string): string {
    ToLower(ReplaceChar(id, '#', '-'))
  }

  predicate IsSlug(s: string) {
    forall i :: 0 <= i < |s| ==> s[i] != '#' && !('A' <= s[i] <= 'Z')
  }

  /** A slug is lower-case and free of '#', so slugifying it again changes nothing. */
  lemma SlugifyIdempotent(id: string)
    ensures IsSlug(Slugify(id))
    ensures Slugify(Slugify(id)) == Slugify(id)
  {
    var s := Slugify(id);
    assert forall i :: 0 <= i < |s| ==> s[i] == LowerChar(if id[i] == '#' then '-' else id[i]);
    var t := Slugify(s);
    assert |t| == |s|;
    forall i | 0 <= i < |s| ensures t[i] == s[i] {
    }
  }

  /** `$slugify || ($slugify === null && FlowFact::$SLUGIFY_IDENTIFIER_BY_DEFAULT)` */
  predicate SlugifyOn(slugify: Option<bool>, slugDefault: bool) {
    slugify == Some(true) || (slugify.None? && slugDefault)
  }

  /**
   * `getId($slugify)`: the external object number, slugified when asked
   * to or, without an argument, when slugifying is the default.
   */
  function GetId(o: ImmoObject, slugify: Option<bool>, slugDefault: bool): string {
    if SlugifyOn(slugify, slugDefault) then Slugify(RawId(o)) else RawId(o)
  }

  /**
   * A slugified id has the raw id's length, with '#' turned into '-' and
   * letters lower-cased, so it holds neither and slugifying it again
   * changes nothing; otherwise the id is the raw one.
   */
  lemma GetIdSpec(o: ImmoObject, slugify: Option<bool>, slugDefault: bool)
    ensures |GetId(o, slugify, slugDefault)| == |RawId(o)|
    ensures SlugifyOn(slugify, slugDefault) ==>
      var r := GetId(o, slugify, slugDefault);
      IsSlug(r) && Slugify(r) == r &&
      forall i :: 0 <= i < |r| ==> r[i] == if RawId(o)[i] == '#' then '-' else LowerChar(RawId(o)[i])
    ensures !SlugifyOn(slugify, slugDefault) ==> GetId(o, slugify, slugDefault) == RawId(o)
  {
    SlugifyIdempotent(RawId(o));
  }

  // ---------------------------------------------------------------------
  // Marketing type (vermarktungsart) and usage type (nutzungsart)

  const VERMARKTUNGSART_KAUF: string := "KAUF"
  const VERMARKTUNGSART_MIETE: string := "MIETE_PACHT"
  const NUTZUNGSART_WOHNEN: string := "WOHNEN"
  const NUTZUNGSART_GEWERBE: string := "GEWERBE"

  function Vermarktungsart(o: ImmoObject): Option<Node> {
    Path(Root(o), ["objektkategorie", "vermarktungsart"])
  }

  function Nutzungsart(o: ImmoObject): Option<Node> {
    Path(Root(o), ["objektkategorie", "nutzungsart"])
  }

  /** `isVermarktungsart($art)`: the attribute `art` reads exactly "true". */
  predicate IsVermarktungsart(o: ImmoObject, art: string) {
    Attr(Vermarktungsart(o), art) == BOOL_TRUE
  }

  predicate IsKauf(o: ImmoObject) {
    IsVermarktungsart(o, VERMARKTUNGSART_KAUF)
  }

  predicate IsMiete(o: ImmoObject) {
    IsVermarktungsart(o, VERMARKTUNGSART_MIETE)
  }

  /** `isNutzungsart($art)` */
  predicate IsNutzungsart(o: ImmoObject, art: string) {
    Attr(Nutzungsart(o), art) == BOOL_TRUE
  }

  /** The position of the first attribute whose value is "true". */
  function FirstTrueIndex(attrs: seq<(string, string)>): (r: Option<nat>)
    ensures r.Some? ==> r.value < |attrs| && attrs[r.value].1 == BOOL_TRUE
    ensures r.Some? ==> forall j :: 0 <= j < r.value ==> attrs[j].1 != BOOL_TRUE
    ensures r.None? <==> forall j :: 0 <= j < |attrs| ==> attrs[j].1 != BOOL_TRUE
  {
    if attrs == [] then None
    else if attrs[0].1 == BOOL_TRUE then Some(0)
    else match FirstTrueIndex(attrs[1..])
      case Some(i) => Some(i + 1)
      case None => None
  }

  datatype KeyLabel = KeyLabel(key: string, caption: string)

  /**
   * `array_keys(array_filter(attributes, === 'true'))[0]` with its label.
   * With no "true" attribute the key is `null`, and passing it to
   * mapString(string $str) throws a TypeError; so does array_filter when
   * the element has no attributes at all.
   */
  function FirstTrueAttribute(e: Option<Node>, labels: Labels): Result<KeyLabel> {
    var attrs := Attributes(e);
    match FirstTrueIndex(attrs)
    case Some(i) => Ok(KeyLabel(attrs[i].0, Label(labels, attrs[i].0)))
    case None => TypeError("mapString(): argument must be of type string, null given")
  }

  /** `getVermarktungsart()` */
  function GetVermarktungsart(o: ImmoObject, labels: Labels): Result<KeyLabel> {
    FirstTrueAttribute(Vermarktungsart(o), labels)
  }

  /** `getNutzungsart()` */
  function GetNutzungsart(o: ImmoObject, labels: Labels): Result<KeyLabel> {
    FirstTrueAttribute(Nutzungsart(o), labels)
  }

  /**
   * On an element with distinct attribute names (as XML requires), the
   * first-true selection names an attribute that the single-attribute test
   * accepts, carries that attribute's label, and fails only when the test
   * accepts no attribute at all.
   */
  lemma FirstTrueAttributeSpec(e: Option<Node>, labels: Labels)
    requires UniqueKeys(Attributes(e))
    ensures FirstTrueAttribute(e, labels).Ok? ==>
      var kl := FirstTrueAttribute(e, labels).value;
      Attr(e, kl.key) == BOOL_TRUE && kl.caption == Label(labels, kl.key)
    ensures FirstTrueAttribute(e, labels).TypeError? <==> forall x :: Attr(e, x) != BOOL_TRUE
  {
    var attrs := Attributes(e);
    match FirstTrueIndex(attrs)
    case Some(i) =>
      GetAt(attrs, i);
    case None =>
      forall x ensures Attr(e, x) != BOOL_TRUE {
        if IndexOf(attrs, x).Some? {
          assert attrs[IndexOf(attrs, x).value].1 != BOOL_TRUE;
        }
      }
  }

  /** What FirstTrueAttributeSpec says, for the marketing type. */
  lemma GetVermarktungsartSpec(o: ImmoObject, labels: Labels)
    requires UniqueKeys(Attributes(Vermarktungsart(o)))
    ensures GetVermarktungsart(o, labels).Ok? ==> IsVermarktungsart(o, GetVermarktungsart(o, labels).value.key)
    ensures GetVermarktungsart(o, labels).TypeError? <==> forall x :: !IsVermarktungsart(o, x)
  {
    FirstTrueAttributeSpec(Vermarktungsart(o), labels);
    if forall x :: Attr(Vermarktungsart(o), x) != BOOL_TRUE {
      forall x ensures !IsVermarktungsart(o, x) {
        assert Attr(Vermarktungsart(o), x) != BOOL_TRUE;
      }
    } else {
      var x :| Attr(Vermarktungsart(o), x) == BOOL_TRUE;
      assert IsVermarktungsart(o, x);
    }
  }

  /** What FirstTrueAttributeSpec says, for the usage type. */
  lemma GetNutzungsartSpec(o: ImmoObject, labels: Labels)
    requires UniqueKeys(Attributes(Nutzungsart(o)))
    ensures GetNutzungsart(o, labels).Ok? ==> IsNutzungsart(o, GetNutzungsart(o, labels).value.key)
    ensures GetNutzungsart(o, labels).TypeError? <==> forall x :: !IsNutzungsart(o, x)
  {
    FirstTrueAttributeSpec(Nutzungsart(o), labels);
    if forall x :: Attr(Nutzungsart(o), x) != BOOL_TRUE {
      forall x ensures !IsNutzungsart(o, x) {
        assert Attr(Nutzungsart(o), x) != BOOL_TRUE;
      }
    } else {
      var x :| Attr(Nutzungsart(o), x) == BOOL_TRUE;
      assert IsNutzungsart(o, x);
    }
  }

  // ---------------------------------------------------------------------
  // convertData

  /** A converted value: a real boolean for "true"/"false", the plain string otherwise. */
  datatype Val = Bool(b: bool) | Str(s: string)

  function Coerce(s: string): Val {
    if s == BOOL_TRUE || s == BOOL_FALSE then Bool(s == BOOL_TRUE) else Str(s)
  }

  /** One converted attribute: `['key' => k, 'label' => ..., 'value' => ...]`. */
  datatype AttrEntry = AttrEntry(key: string, caption: string, value: Val)

  /** Either a `value` or, for an element with attributes, an `attributes` array. */
  datatype Body = Plain(value: Val) | Expanded(attributes: seq<(string, AttrEntry)>)

  /** One converted child: `['key' => k, 'label' => ..., 'value'|'attributes' => ...]`. */
  datatype Entry = Entry(key: string, caption: string, body: Body)

  function AttrEntryOf(k: string, v: string, labels: Labels): AttrEntry {
    AttrEntry(k, Label(labels, k), Coerce(v))
  }

  function AttrPairs(attrs: seq<(string, string)>, labels: Labels): seq<(string, AttrEntry)> {
    if attrs == [] then []
    else
      var last := attrs[|attrs| - 1];
      AttrPairs(attrs[..|attrs| - 1], labels) + [(last.0, AttrEntryOf(last.0, last.1, labels))]
  }

  /** convertData on an attribute array: its values are strings, so every entry gets a `value`. */
  function ConvertAttributesSpec(attrs: seq<(string, string)>, labels: Labels): seq<(string, AttrEntry)> {
    FromPairs(AttrPairs(attrs, labels))
  }

  /** The entry convertData builds for child `k` with element `v`. */
  function EntryOf(k: string, v: Node, labels: Labels): Entry {
    if v.attrs != [] then Entry(k, Label(labels, k), Expanded(ConvertAttributesSpec(v.attrs, labels)))
    else Entry(k, Label(labels, k), Plain(Coerce(v.text)))
  }

  /** The children not excluded by `$without`, each paired with its entry, in order. */
  function EntryPairs(cs: seq<(string, Node)>, without: seq<string>, labels: Labels): seq<(string, Entry)> {
    if cs == [] then []
    else
      var last := cs[|cs| - 1];
      EntryPairs(cs[..|cs| - 1], without, labels)
        + (if last.0 in without then [] else [(last.0, EntryOf(last.0, last.1, labels))])
  }

  /** The tag names of the children not excluded by `$without`, in order, repeats kept. */
  function IncludedKeys(cs: seq<(string, Node)>, without: seq<string>): seq<string> {
    if cs == [] then []
    else
      var last := cs[|cs| - 1];
      IncludedKeys(cs[..|cs| - 1], without) + (if last.0 in without then [] else [last.0])
  }

  /** `convertData($data, $without)` on the children of an element (`null` for a missing one). */
  function ConvertSpec(data: Option<seq<(string, Node)>>, without: seq<string>, labels: Labels): seq<(string, Entry)> {
    match data
    case None => []
    case Some(cs) => FromPairs(EntryPairs(cs, without, labels))
  }

  /** The entry for attribute `a`: built from its value, or none for an absent attribute. */
  function ExpectedAttr(attrs: seq<(string, string)>, a: string, labels: Labels): Option<AttrEntry> {
    match LastValue(attrs, a)
    case None => None
    case Some(v) => Some(AttrEntry(a, Label(labels, a), Coerce(v)))
  }

  lemma {:induction false} AttrPairsKeys(attrs: seq<(string, string)>, labels: Labels)
    ensures Keys(AttrPairs(attrs, labels)) == Keys(attrs)
    ensures forall a :: LastValue(AttrPairs(attrs, labels), a) == ExpectedAttr(attrs, a, labels)
  {
    if attrs != [] {
      var init, last := attrs[..|attrs| - 1], attrs[|attrs| - 1];
      AttrPairsKeys(init, labels);
      var ps := AttrPairs(init, labels);
      var p := (last.0, AttrEntryOf(last.0, last.1, labels));
      assert AttrPairs(attrs, labels) == ps + [p];
      assert (ps + [p])[..|ps|] == ps;
      KeysSnoc(ps + [p]);
      KeysSnoc(attrs);
    }
  }

  /**
   * convertData on an attribute array: one entry per distinct attribute
   * name, in order of first occurrence, each built from its value with
   * `key == a` and `label == mapString(a)`.
   */
  lemma ConvertAttributesSpecProps(attrs: seq<(string, string)>, labels: Labels)
    ensures Keys(ConvertAttributesSpec(attrs, labels)) == Dedup(Keys(attrs))
    ensures UniqueKeys(ConvertAttributesSpec(attrs, labels))
    ensures forall a :: Get(ConvertAttributesSpec(attrs, labels), a) == ExpectedAttr(attrs, a, labels)
  {
    AttrPairsKeys(attrs, labels);
    FromPairsSpec(AttrPairs(attrs, labels));
  }

  /** The attribute-array branch of convertData (`is_array($data)`), as a loop. */
  method ConvertAttributes(attrs: seq<(string, string)>, labels: Labels) returns (r: seq<(string, AttrEntry)>)
    ensures r == ConvertAttributesSpec(attrs, labels)
  {
    r := [];
    var i := 0;
    while i < |attrs|
      invariant 0 <= i <= |attrs|
      invariant r == FromPairs(AttrPairs(attrs[..i], labels))
    {
      var k, v := attrs[i].0, attrs[i].1;
      assert attrs[..i + 1][..i] == attrs[..i];
      FromPairsSnoc(AttrPairs(attrs[..i], labels), (k, AttrEntryOf(k, v, labels)));
      r := Assign(r, k, AttrEntry(k, Label(labels, k), Coerce(v)));
      i := i + 1;
    }
    assert attrs[..i] == attrs;
  }

  /**
   * `convertData($data, $without)` on the children of an element: skip
   * excluded keys, label every other child, expand a child with
   * attributes into a one-level `attributes` array, and otherwise coerce
   * its text.
   */
  method ConvertData(data: Option<seq<(string, Node)>>, without: seq<string>, labels: Labels)
    returns (r: seq<(string, Entry)>)
    ensures r == ConvertSpec(data, without, labels)
  {
    if data.None? {
      return [];
    }
    var cs := data.value;
    r := [];
    assert EntryPairs(cs[..0], without, labels) == [];
    var i := 0;
    while i < |cs|
      invariant 0 <= i <= |cs|
      invariant r == FromPairs(EntryPairs(cs[..i], without, labels))
    {
      var k, v := cs[i].0, cs[i].1;
      ConvertStep(cs, i, without, labels);
      if k !in without {
        var e := ConvertChild(k, v, labels);
        r := Assign(r, k, e);
      }
      i := i + 1;
    }
    assert cs[..i] == cs;
  }

  /** The entry for one child that is not excluded: its attributes expanded, or its text coerced. */
  method ConvertChild(k: string, v: Node, labels: Labels) returns (e: Entry)
    ensures e.key == k && e.caption == Label(labels, k)
    ensures e.body.Expanded? <==> v.attrs != []
    ensures e.body.Plain? ==> e.body.value == Coerce(v.text)
    ensures e.body.Expanded? ==> Keys(e.body.attributes) == Dedup(Keys(v.attrs)) && UniqueKeys(e.body.attributes)
    ensures e.body.Expanded? ==> forall a :: Get(e.body.attributes, a) == ExpectedAttr(v.attrs, a, labels)
    ensures e == EntryOf(k, v, labels)
  {
    ConvertAttributesSpecProps(v.attrs, labels);
    if v.attrs != [] {
      var attributes := ConvertAttributes(v.attrs, labels);
      e := Entry(k, Label(labels, k), Expanded(attributes));
    } else {
      e := Entry(k, Label(labels, k), Plain(Coerce(v.text)));
    }
  }

  /** The entry for `k`: none when excluded or absent, else built from the last child named `k`. */
  function ExpectedEntry(cs: seq<(string, Node)>, without: seq<string>, k: string, labels: Labels): Option<Entry> {
    if k in without then None
    else match LastValue(cs, k)
      case None => None
      case Some(v) => Some(EntryOf(k, v, labels))
  }

  /** One more child: convertData either skips it or assigns its entry. */
  lemma ConvertStep(cs: seq<(string, Node)>, i: nat, without: seq<string>, labels: Labels)
    requires i < |cs|
    ensures FromPairs(EntryPairs(cs[..i + 1], without, labels)) ==
      if cs[i].0 in without then FromPairs(EntryPairs(cs[..i], without, labels))
      else Assign(FromPairs(EntryPairs(cs[..i], without, labels)), cs[i].0, EntryOf(cs[i].0, cs[i].1, labels))
  {
    assert cs[..i + 1][..i] == cs[..i];
    if cs[i].0 !in without {
      FromPairsSnoc(EntryPairs(cs[..i], without, labels), (cs[i].0, EntryOf(cs[i].0, cs[i].1, labels)));
    } else {
      assert EntryPairs(cs[..i + 1], without, labels) == EntryPairs(cs[..i], without, labels);
    }
  }

  lemma {:induction false} EntryPairsKeys(cs: seq<(string, Node)>, without: seq<string>, labels: Labels)
    ensures Keys(EntryPairs(cs, without, labels)) == IncludedKeys(cs, without)
    ensures forall k :: LastValue(EntryPairs(cs, without, labels), k) == ExpectedEntry(cs, without, k, labels)
  {
    if cs != [] {
      var init, last := cs[..|cs| - 1], cs[|cs| - 1];
      EntryPairsKeys(init, without, labels);
      var ps := EntryPairs(init, without, labels);
      if last.0 !in without {
        var p := (last.0, EntryOf(last.0, last.1, labels));
        assert EntryPairs(cs, without, labels) == ps + [p];
        assert (ps + [p])[..|ps|] == ps;
        KeysSnoc(ps + [p]);
      } else {
        assert EntryPairs(cs, without, labels) == ps;
        forall k | k !in without ensures LastValue(cs, k) == LastValue(init, k) {
        }
      }
    }
  }

  /**
   * convertData emits one entry per distinct non-excluded tag name, in
   * order of first occurrence; the entry for `k` is built from the last
   * child named `k`, carries `key == k` and `label == mapString(k)`; an
   * excluded or absent name has no entry; `null` input gives `[]`.
   */
  lemma ConvertDataSpec(data: Option<seq<(string, Node)>>, without: seq<string>, labels: Labels)
    ensures data.None? ==> ConvertSpec(data, without, labels) == []
    ensures data.Some? ==> Keys(ConvertSpec(data, without, labels)) == Dedup(IncludedKeys(data.value, without))
    ensures UniqueKeys(ConvertSpec(data, without, labels))
    ensures data.Some? ==> forall k :: Get(ConvertSpec(data, without, labels), k) == ExpectedEntry(data.value, without, k, labels)
    ensures forall i :: 0 <= i < |ConvertSpec(data, without, labels)| ==>
      var (k, e) := ConvertSpec(data, without, labels)[i]; e.key == k && e.caption == Label(labels, k)
  {
    if data.Some? {
      var ps := EntryPairs(data.value, without, labels);
      EntryPairsKeys(data.value, without, labels);
      FromPairsSpec(ps);
      var r := FromPairs(ps);
      forall i | 0 <= i < |r| ensures r[i].1.key == r[i].0 && r[i].1.caption == Label(labels, r[i].0) {
        GetAt(r, i);
      }
    }
  }

  // ---------------------------------------------------------------------
  // Prices and equipment

  /** The `array_map` closure of getPreise: a numeric `value` gets the euro sign appended. */
  function WithEuro(e: Entry, isNumeric: string -> bool): Entry {
    match e.body
    case Plain(Str(s)) => if isNumeric(s) then e.(body := Plain(Str(s + " €"))) else e
    case _ => e
  }

  function MapEuro(es: seq<(string, Entry)>, isNumeric: string -> bool): seq<(string, Entry)> {
    if es == [] then []
    else MapEuro(es[..|es| - 1], isNumeric) + [(es[|es| - 1].0, WithEuro(es[|es| - 1].1, isNumeric))]
  }

  function PriceChildren(o: ImmoObject): Option<seq<(string, Node)>> {
    Children(Path(Root(o), ["preise"]))
  }

  function EquipmentChildren(o: ImmoObject): Option<seq<(string, Node)>> {
    Children(Path(Root(o), ["ausstattung"]))
  }

  /** `getPreise($without)`; `is_numeric` is the parameter `isNumeric`. */
  method GetPreise(o: ImmoObject, without: seq<string>, labels: Labels, isNumeric: string -> bool)
    returns (r: seq<(string, Entry)>)
    ensures r == MapEuro(ConvertSpec(PriceChildren(o), without, labels), isNumeric)
  {
    var converted := ConvertData(PriceChildren(o), without, labels);
    r := [];
    var i := 0;
    while i < |converted|
      invariant 0 <= i <= |converted|
      invariant r == MapEuro(converted[..i], isNumeric)
    {
      assert converted[..i + 1][..i] == converted[..i];
      var (k, e) := converted[i];
      var e' := e;
      if e.body.Plain? && e.body.value.Str? && isNumeric(e.body.value.s) {
        e' := e.(body := Plain(Str(e.body.value.s + " €")));
      }
      r := r + [(k, e')];
      i := i + 1;
    }
    assert converted[..i] == converted;
  }

  /**
   * The euro sign touches only string values that are numeric: keys,
   * labels, order, boolean values and attribute entries stay as they were.
   */
  lemma {:induction false} MapEuroSpec(es: seq<(string, Entry)>, isNumeric: string -> bool)
    ensures |MapEuro(es, isNumeric)| == |es|
    ensures forall i :: 0 <= i < |es| ==> MapEuro(es, isNumeric)[i].0 == es[i].0
    ensures forall i :: 0 <= i < |es| ==>
      var (e, e') := (es[i].1, MapEuro(es, isNumeric)[i].1);
      e'.key == e.key && e'.caption == e.caption &&
      e'.body == if e.body.Plain? && e.body.value.Str? && isNumeric(e.body.value.s)
                 then Plain(Str(e.body.value.s + " €")) else e.body
  {
    if es != [] {
      MapEuroSpec(es[..|es| - 1], isNumeric);
    }
  }

  /** `getAusstattung($without)` */
  method GetAusstattung(o: ImmoObject, without: seq<string>, labels: Labels) returns (r: seq<(string, Entry)>)
    ensures r == ConvertSpec(EquipmentChildren(o), without, labels)
  {
    r := ConvertData(EquipmentChildren(o), without, labels);
  }

  // ---------------------------------------------------------------------
  // Categories

  /** One category: its tag name, its label and its attributes with mapped values. */
  datatype Category = Category(key: string, caption: string, detail: seq<(string, string)>)

  /** The `array_walk` over the attributes: every value mapped, every name kept. */
  function MapDetail(attrs: seq<(string, string)>, labels: Labels): (r: seq<(string, string)>)
    ensures |r| == |attrs|
    ensures Keys(r) == Keys(attrs)
    ensures forall i :: 0 <= i < |attrs| ==> r[i] == (attrs[i].0, Label(labels, attrs[i].1))
  {
    var r := seq(|attrs|, i requires 0 <= i < |attrs| => (attrs[i].0, Label(labels, attrs[i].1)));
    assert Keys(r) == Keys(attrs);
    r
  }

  function CategoryOf(k: string, v: Node, labels: Labels): Category {
    Category(k, Label(labels, k), MapDetail(v.attrs, labels))
  }

  function CategoryPairs(cs: seq<(string, Node)>, labels: Labels): seq<(string, Category)> {
    if cs == [] then []
    else
      var last := cs[|cs| - 1];
      CategoryPairs(cs[..|cs| - 1], labels) + [(last.0, CategoryOf(last.0, last.1, labels))]
  }

  function CategoryChildren(o: ImmoObject): Option<seq<(string, Node)>> {
    Children(Path(Root(o), ["objektkategorie", "objektart"]))
  }

  /** The category for `k`: built from the last element named `k`, if any. */
  function ExpectedCategory(cs: seq<(string, Node)>, k: string, labels: Labels): Option<Category> {
    match LastValue(cs, k)
    case None => None
    case Some(v) => Some(CategoryOf(k, v, labels))
  }

  predicate AllHaveAttributes(cs: seq<(string, Node)>) {
    forall i :: 0 <= i < |cs| ==> cs[i].1.attrs != []
  }

  /**
   * `getKategorien()`: a child of `objektart` without attributes makes
   * `array_walk` receive `null`, which is a TypeError; a missing
   * `objektart` gives no iterations.
   */
  function KategorienSpec(o: ImmoObject, labels: Labels): Result<seq<(string, Category)>> {
    match CategoryChildren(o)
    case None => Ok([])
    case Some(cs) =>
      if AllHaveAttributes(cs) then Ok(FromPairs(CategoryPairs(cs, labels)))
      else TypeError("array_walk(): argument #1 must be of type array, null given")
  }

  method GetKategorien(o: ImmoObject, labels: Labels) returns (r: Result<seq<(string, Category)>>)
    ensures r == KategorienSpec(o, labels)
  {
    var children := CategoryChildren(o);
    if children.None? {
      return Ok([]);
    }
    var cs := children.value;
    var tmp: seq<(string, Category)> := [];
    var i := 0;
    assert cs[..0] == [];
    while i < |cs|
      invariant 0 <= i <= |cs|
      invariant AllHaveAttributes(cs[..i])
      invariant tmp == FromPairs(CategoryPairs(cs[..i], labels))
    {
      var k, v := cs[i].0, cs[i].1;
      if v.attrs == [] {
        assert !AllHaveAttributes(cs);
        return TypeError("array_walk(): argument #1 must be of type array, null given");
      }
      AllHaveAttributesStep(cs, i);
      var detail := MapDetail(v.attrs, labels);
      var category := Category(k, Label(labels, k), detail);
      assert category == CategoryOf(k, v, labels);
      CategoryStep(cs, i, labels);
      tmp := Assign(tmp, k, category);
      i := i + 1;
    }
    assert cs[..i] == cs;
    return Ok(tmp);
  }

  lemma AllHaveAttributesStep(cs: seq<(string, Node)>, i: nat)
    requires i < |cs| && AllHaveAttributes(cs[..i]) && cs[i].1.attrs != []
    ensures AllHaveAttributes(cs[..i + 1])
  {
    assert forall j :: 0 <= j < i ==> cs[..i + 1][j] == cs[..i][j];
  }

  lemma CategoryStep(cs: seq<(string, Node)>, i: nat, labels: Labels)
    requires i < |cs|
    ensures FromPairs(CategoryPairs(cs[..i + 1], labels))
      == Assign(FromPairs(CategoryPairs(cs[..i], labels)), cs[i].0, CategoryOf(cs[i].0, cs[i].1, labels))
  {
    var ps, p := CategoryPairs(cs[..i], labels), (cs[i].0, CategoryOf(cs[i].0, cs[i].1, labels));
    assert cs[..i + 1][..i] == cs[..i];
    assert CategoryPairs(cs[..i + 1], labels) == ps + [p];
    FromPairsSnoc(ps, p);
  }

  /**
   * getKategorien fails iff some category element has no attributes;
   * otherwise it lists each category name once, in order of first
   * occurrence, with its label and the last such element's mapped
   * attributes.
   */
  lemma KategorienSpecProps(o: ImmoObject, labels: Labels)
    ensures KategorienSpec(o, labels).TypeError? <==>
      CategoryChildren(o).Some? && exists i :: 0 <= i < |CategoryChildren(o).value| && CategoryChildren(o).value[i].1.attrs == []
    ensures KategorienSpec(o, labels).Ok? && CategoryChildren(o).Some? ==>
      var (cs, r) := (CategoryChildren(o).value, KategorienSpec(o, labels).value);
      Keys(r) == Dedup(Keys(cs)) && UniqueKeys(r) &&
      forall k :: Get(r, k) == ExpectedCategory(cs, k, labels)
  {
    if CategoryChildren(o).Some? && AllHaveAttributes(CategoryChildren(o).value) {
      var cs := CategoryChildren(o).value;
      CategoryPairsProps(cs, labels);
      FromPairsSpec(CategoryPairs(cs, labels));
    }
  }

  lemma {:induction false} CategoryPairsProps(cs: seq<(string, Node)>, labels: Labels)
    ensures Keys(CategoryPairs(cs, labels)) == Keys(cs)
    ensures forall k :: LastValue(CategoryPairs(cs, labels), k) == ExpectedCategory(cs, k, labels)
  {
    if cs != [] {
      var init := cs[..|cs| - 1];
      CategoryPairsProps(init, labels);
      var ps := CategoryPairs(init, labels);
      var p := (cs[|cs| - 1].0, CategoryOf(cs[|cs| - 1].0, cs[|cs| - 1].1, labels));
      assert (ps + [p])[..|ps|] == ps;
      KeysSnoc(ps + [p]);
      KeysSnoc(cs);
    }
  }

  // ---------------------------------------------------------------------
  // Images

  /** One attachment: `['path' => ..., 'title' => ...]`. */
  datatype Image = Image(path: string, title: string)

  /** The attachment's `gruppe` attribute; a missing one reads as the key "". */
  function Group(anhang: Node): string {
    Attr(Some(anhang), "gruppe")
  }

  /** `sprintf('%s/%s/%s', ltrim(EXTRACT_DIR, '.'), getId(), pfad)` */
  function ImagePath(o: ImmoObject, anhang: Node, extractDir: string, slugDefault: bool): string {
    LTrimChar(extractDir, '.') + "/" + GetId(o, None, slugDefault) + "/" + Text(Path(Some(anhang), ["daten", "pfad"]))
  }

  function ImageOf(o: ImmoObject, anhang: Node, extractDir: string, slugDefault: bool): Image {
    Image(ImagePath(o, anhang, extractDir, slugDefault), Text(Child(Some(anhang), "anhangtitel")))
  }

  /** Every attachment with its group, in document order. */
  function ImagePairs(o: ImmoObject, cs: seq<(string, Node)>, extractDir: string, slugDefault: bool): (r: seq<(string, Image)>)
    ensures |r| == |cs|
    ensures forall i :: 0 <= i < |cs| ==> r[i] == (Group(cs[i].1), ImageOf(o, cs[i].1, extractDir, slugDefault))
  {
    if cs == [] then []
    else
      var last := cs[|cs| - 1];
      ImagePairs(o, cs[..|cs| - 1], extractDir, slugDefault) + [(Group(last.1), ImageOf(o, last.1, extractDir, slugDefault))]
  }

  function Attachments(o: ImmoObject): seq<(string, Node)> {
    Children(Path(Root(o), ["anhaenge"])).GetOr([])
  }

  /** `getImagesGrouped()` */
  function ImagesSpec(o: ImmoObject, extractDir: string, slugDefault: bool): seq<(string, seq<Image>)> {
    GroupBy(ImagePairs(o, Attachments(o), extractDir, slugDefault))
  }

  method GetImagesGrouped(o: ImmoObject, extractDir: string, slugDefault: bool) returns (r: seq<(string, seq<Image>)>)
    ensures r == ImagesSpec(o, extractDir, slugDefault)
  {
    var cs := Attachments(o);
    r := [];
    var i := 0;
    while i < |cs|
      invariant 0 <= i <= |cs|
      invariant r == GroupBy(ImagePairs(o, cs[..i], extractDir, slugDefault))
    {
      var anhang := cs[i].1;
      var image := Image(LTrimChar(extractDir, '.') + "/" + GetId(o, None, slugDefault) + "/" + Text(Path(Some(anhang), ["daten", "pfad"])),
                         Text(Child(Some(anhang), "anhangtitel")));
      ImageStep(o, cs, i, extractDir, slugDefault);
      r := Push(r, Attr(Some(anhang), "gruppe"), image);
      i := i + 1;
    }
    assert cs[..i] == cs;
  }

  lemma ImageStep(o: ImmoObject, cs: seq<(string, Node)>, i: nat, extractDir: string, slugDefault: bool)
    requires i < |cs|
    ensures GroupBy(ImagePairs(o, cs[..i + 1], extractDir, slugDefault))
      == Push(GroupBy(ImagePairs(o, cs[..i], extractDir, slugDefault)), Group(cs[i].1), ImageOf(o, cs[i].1, extractDir, slugDefault))
  {
    assert cs[..i + 1][..i] == cs[..i];
    GroupBySnoc(ImagePairs(o, cs[..i], extractDir, slugDefault), (Group(cs[i].1), ImageOf(o, cs[i].1, extractDir, slugDefault)));
  }

  /**
   * The groups appear in order of their first attachment, and each group
   * lists exactly its attachments' images in document order.
   */
  lemma ImagesGroupedSpec(o: ImmoObject, extractDir: string, slugDefault: bool)
    ensures var ps := ImagePairs(o, Attachments(o), extractDir, slugDefault);
      Keys(ImagesSpec(o, extractDir, slugDefault)) == Dedup(Keys(ps)) &&
      forall g :: Get(ImagesSpec(o, extractDir, slugDefault), g) == if g in Keys(ps) then Some(ValuesOf(ps, g)) else None
  {
    GroupBySpec(ImagePairs(o, Attachments(o), extractDir, slugDefault));
  }

  const TITELBILD: string := "TITELBILD"

  /**
   * `getTitelbild($default)` as written: the return type `string` does
   * not admit the `null` default, so without a title image and without a
   * default the call is a TypeError.
   */
  function GetTitelbild(o: ImmoObject, default: Option<string>, extractDir: string, slugDefault: bool): Result<string> {
    match Titelbild(o, default, extractDir, slugDefault)
    case Some(p) => Ok(p)
    case None => TypeError("getTitelbild(): return value must be of type string, null returned")
  }

  /** `getTitelbild($default)` with the evidently intended `?string` result. */
  function Titelbild(o: ImmoObject, default: Option<string>, extractDir: string, slugDefault: bool): (r: Option<string>)
    ensures HasTitelbild(o, extractDir, slugDefault) ==> r.Some?
    ensures !HasTitelbild(o, extractDir, slugDefault) ==> r == default
  {
    match Get(ImagesSpec(o, extractDir, slugDefault), TITELBILD)
    case Some(imgs) => if imgs != [] then Some(imgs[0].path) else default
    case None => default
  }

  /** `hasTitelbild()` */
  predicate HasTitelbild(o: ImmoObject, extractDir: string, slugDefault: bool) {
    match Get(ImagesSpec(o, extractDir, slugDefault), TITELBILD)
    case Some(imgs) => imgs != []
    case None => false
  }

  /** The position of the first attachment in group `g`. */
  function FirstInGroup(cs: seq<(string, Node)>, g: string): (r: Option<nat>)
    ensures r.Some? ==> r.value < |cs| && Group(cs[r.value].1) == g
    ensures r.Some? ==> forall j :: 0 <= j < r.value ==> Group(cs[j].1) != g
    ensures r.None? <==> forall j :: 0 <= j < |cs| ==> Group(cs[j].1) != g
  {
    if cs == [] then None
    else if Group(cs[0].1) == g then Some(0)
    else match FirstInGroup(cs[1..], g)
      case Some(i) => Some(i + 1)
      case None => None
  }

  /**
   * hasTitelbild holds iff some attachment is in the TITELBILD group; the
   * title image is then the path of the first such attachment, and
   * otherwise it is the default.
   */
  lemma TitelbildSpec(o: ImmoObject, default: Option<string>, extractDir: string, slugDefault: bool)
    ensures HasTitelbild(o, extractDir, slugDefault) <==> FirstInGroup(Attachments(o), TITELBILD).Some?
    ensures match FirstInGroup(Attachments(o), TITELBILD)
      case Some(i) => Titelbild(o, default, extractDir, slugDefault) == Some(ImagePath(o, Attachments(o)[i].1, extractDir, slugDefault))
      case None => Titelbild(o, default, extractDir, slugDefault) == default
  {
    FirstOfGroup(o, Attachments(o), TITELBILD, extractDir, slugDefault);
  }

  /** The group `g` exists iff some attachment is in it, and its first image is that attachment's. */
  lemma FirstOfGroup(o: ImmoObject, cs: seq<(string, Node)>, g: string, extractDir: string, slugDefault: bool)
    ensures var gs := GroupBy(ImagePairs(o, cs, extractDir, slugDefault));
      match FirstInGroup(cs, g)
      case Some(i) => Get(gs, g).Some? && Get(gs, g).value != [] && Get(gs, g).value[0] == ImageOf(o, cs[i].1, extractDir, slugDefault)
      case None => Get(gs, g).None?
  {
    var ps := ImagePairs(o, cs, extractDir, slugDefault);
    GroupByGet(ps, g);
    ValuesOfFirst(ps, g);
    GroupPosition(ps, cs, g);
  }

  lemma GroupPosition(ps: seq<(string, Image)>, cs: seq<(string, Node)>, g: string)
    requires |ps| == |cs| && forall j :: 0 <= j < |cs| ==> ps[j].0 == Group(cs[j].1)
    ensures FirstInGroup(cs, g).None? <==> g !in Keys(ps)
    ensures IndexOf(ps, g) == FirstInGroup(cs, g)
  {
    FirstKeyPosition(ps, g, FirstInGroup(cs, g));
  }

  /** getTitelbild as written fails exactly when there is no title image and no default. */
  lemma GetTitelbildFails(o: ImmoObject, default: Option<string>, extractDir: string, slugDefault: bool)
    ensures GetTitelbild(o, default, extractDir, slugDefault).TypeError? <==>
      !HasTitelbild(o, extractDir, slugDefault) && default.None?
  {
    TitelbildSpec(o, default, extractDir, slugDefault);
    var cs := Attachments(o);
    match FirstInGroup(cs, TITELBILD)
    case Some(i) =>
    case None =>
  }

  /** An object without attachments has no title image: called without a default, getTitelbild fails. */
  lemma NoAttachmentsTitelbildFails(o: ImmoObject, extractDir: string, slugDefault: bool)
    requires Attachments(o) == []
    ensures GetTitelbild(o, None, extractDir, slugDefault).TypeError?
    ensures Titelbild(o, None, extractDir, slugDefault) == None
  {
    GetTitelbildFails(o, None, extractDir, slugDefault);
    TitelbildSpec(o, None, extractDir, slugDefault);
  }

  // ---------------------------------------------------------------------
  // Convincing facts and heating

  /** The equipment fields getConvincingFacts looks at, with the fact each one stands for. */
  const FACTS: seq<(string, string)> :=
    [("kamin", "Kamin"), ("sauna", "Sauna"), ("barrierefrei", "Barrierefrei"),
     ("swimmingpool", "Swimmingpool"), ("wintergarten", "Wintergarten")]

  function SelectFacts(aus: Option<Node>, fs: seq<(string, string)>): seq<string> {
    if fs == [] then []
    else
      SelectFacts(aus, fs[..|fs| - 1])
        + (if Text(Child(aus, fs[|fs| - 1].0)) == BOOL_TRUE then [fs[|fs| - 1].1] else [])
  }

  /** `getConvincingFacts()` */
  function GetConvincingFacts(o: ImmoObject): seq<string> {
    SelectFacts(Path(Root(o), ["ausstattung"]), FACTS)
  }

  /**
   * The convincing facts are the facts, in their fixed order, whose
   * equipment field reads exactly "true"; so there are at most five.
   */
  lemma ConvincingFactsSpec(o: ImmoObject)
    ensures IsSubsequence(GetConvincingFacts(o), Values(FACTS))
    ensures |GetConvincingFacts(o)| <= |FACTS|
    ensures forall x :: x in GetConvincingFacts(o) <==>
      exists i :: 0 <= i < |FACTS| && FACTS[i].1 == x && Text(Child(Path(Root(o), ["ausstattung"]), FACTS[i].0)) == BOOL_TRUE
  {
    SelectFactsSpec(Path(Root(o), ["ausstattung"]), FACTS);
  }

  lemma SelectFactsSpec(aus: Option<Node>, fs: seq<(string, string)>)
    ensures IsSubsequence(SelectFacts(aus, fs), Values(fs))
    ensures |SelectFacts(aus, fs)| <= |fs|
    ensures forall x :: x in SelectFacts(aus, fs) <==>
      exists i :: 0 <= i < |fs| && fs[i].1 == x && Text(Child(aus, fs[i].0)) == BOOL_TRUE
  {
    SelectFactsOrder(aus, fs);
    SelectFactsMembers(aus, fs);
  }

  lemma {:induction false} SelectFactsOrder(aus: Option<Node>, fs: seq<(string, string)>)
    ensures IsSubsequence(SelectFacts(aus, fs), Values(fs))
    ensures |SelectFacts(aus, fs)| <= |fs|
  {
    if fs != [] {
      var init := fs[..|fs| - 1];
      SelectFactsOrder(aus, init);
      assert Values(fs)[..|fs| - 1] == Values(init);
      var r := SelectFacts(aus, fs);
      if Text(Child(aus, fs[|fs| - 1].0)) == BOOL_TRUE {
        assert r[..|r| - 1] == SelectFacts(aus, init);
      } else {
        assert r == SelectFacts(aus, init);
        SubsequenceDropLast(r, Values(fs));
      }
    }
  }

  lemma {:induction false} SelectFactsMembers(aus: Option<Node>, fs: seq<(string, string)>)
    ensures forall x :: x in SelectFacts(aus, fs) <==>
      exists i :: 0 <= i < |fs| && fs[i].1 == x && Text(Child(aus, fs[i].0)) == BOOL_TRUE
  {
    if fs != [] {
      var init, last := fs[..|fs| - 1], fs[|fs| - 1];
      SelectFactsMembers(aus, init);
      assert fs == init + [last];
      assert forall i :: 0 <= i < |init| ==> fs[i] == init[i];
    }
  }

  function Heating(o: ImmoObject): Option<Node> {
    Path(Root(o), ["ausstattung", "heizungsart"])
  }

  /** `getHeizungsart()`: the label of every attribute name of `heizungsart`, in order. */
  function GetHeizungsart(o: ImmoObject, labels: Labels): (r: seq<string>)
    ensures |r| == |Attributes(Heating(o))|
    ensures forall i :: 0 <= i < |r| ==> r[i] == Label(labels, Attributes(Heating(o))[i].0)
  {
    var names := Keys(Attributes(Heating(o)));
    seq(|names|, i requires 0 <= i < |names| => Label(labels, names[i]))
  }

  /**
   * The heating types are the attribute names: an attribute reading
   * "false" is still listed, and changing values changes nothing.
   */
  lemma HeizungsartIgnoresValues(o: ImmoObject, o': ImmoObject, labels: Labels)
    requires Keys(Attributes(Heating(o))) == Keys(Attributes(Heating(o')))
    ensures GetHeizungsart(o, labels) == GetHeizungsart(o', labels)
  {
    var a, b := Attributes(Heating(o)), Attributes(Heating(o'));
    forall i | 0 <= i < |a| ensures a[i].0 == b[i].0 {
      assert Keys(a)[i] == Keys(b)[i];
    }
  }

  // ---------------------------------------------------------------------
  // Location

  /** `getLocation()`; the coordinates stay strings (their float cast is not modelled). */
  datatype Location = Location(plz: int, ort: string, strasse: string, hausnummer: string, land: string, lat: string, lng: string)

  function Geo(o: ImmoObject): Option<Node> {
    Path(Root(o), ["geo"])
  }

  function GetLocation(o: ImmoObject): Location {
    Location(IntCast(Text(Child(Geo(o), "plz"))),
             Text(Child(Geo(o), "ort")),
             Text(Child(Geo(o), "strasse")),
             Text(Child(Geo(o), "hausnummer")),
             Attr(Child(Geo(o), "land"), "iso_land"),
             Attr(Child(Geo(o), "geokoordinaten"), "breitengrad"),
             Attr(Child(Geo(o), "geokoordinaten"), "laengengrad"))
  }

  /**
   * A postal code made of digits becomes its decimal value, so a leading
   * zero, as in the German code "01067", is lost.
   */
  lemma PlzLosesLeadingZero(o: ImmoObject)
    requires var t := Text(Child(Geo(o), "plz")); t != [] && forall i :: 0 <= i < |t| ==> IsDecimalDigit(t[i])
    ensures GetLocation(o).plz == Decimal(Text(Child(Geo(o), "plz")))
    ensures Text(Child(Geo(o), "plz"))[0] == '0' && |Text(Child(Geo(o), "plz"))| > 1 ==>
      GetLocation(o).plz == IntCast(Text(Child(Geo(o), "plz"))[1..])
  {
    var t := Text(Child(Geo(o), "plz"));
    IntCastDigits(t);
    if t[0] == '0' && |t| > 1 {
      IntCastDigits(t[1..]);
      assert "0" + t[1..] == t;
    }
  }
}
