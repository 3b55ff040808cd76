/**
 * The archive ingestion pass of FlowFact::updateDataStorage
 * (src/FlowFact.php): the zip archives in the base directory are
 * extracted in token order into one directory each, and every extraction
 * is then quarantined, discarded or renamed after the object it holds.
 *
 * The extract directory is a map from entry name to directory contents;
 * an archive is its basename without ".zip", the token taken from that
 * name, and the contents it extracts to.
 */
module Ingestion {
  import opened Php
  import opened Xml
  import opened ImmoObjects

  /**
   * An extracted directory: the object element (`anbieter->immobilie`)
   * of its openimmo.xml when it has one, and the names of its other files.
   */
  datatype Dir = Dir(immobilie: Option<Node>, assets: set<string>)

  /** A zip archive: `basename($file, '.zip')`, the token between "openimmo" and ".zip", its contents. */
  datatype Archive = Archive(name: string, token: nat, content: Dir)

  /** The state the pass changes: the extract directory, the archives left, the ids recorded. */
  datatype Pass = Pass(extracted: map<string, Dir>, zips: seq<Archive>, ids: seq<string>)

  const BROKEN_PREFIX: string := "_BROKEN__"

  function Broken(name: string): string {
    BROKEN_PREFIX + name
  }

  /** `is_dir(EXTRACT_DIR . "/$p")`: the empty name is the extract directory itself. */
  predicate DirExists(ext: map<string, Dir>, p: string) {
    p == "" || p in ext
  }

  /** `rm -rf EXTRACT_DIR/$p`: the empty name removes the whole extract directory. */
  function RemoveTree(ext: map<string, Dir>, p: string): map<string, Dir> {
    if p == "" then map[] else ext - {p}
  }

  /** `rename(EXTRACT_DIR/$src, EXTRACT_DIR/$dst)`: fails, changing nothing, without a source or onto an existing entry. */
  function Rename(ext: map<string, Dir>, src: string, dst: string): map<string, Dir> {
    if src in ext && !DirExists(ext, dst) then (ext - {src})[dst := ext[src]] else ext
  }

  /** `unlink($file)` */
  function Unlink(zips: seq<Archive>, name: string): (r: seq<Archive>)
    ensures forall z :: z in r <==> z in zips && z.name != name
  {
    if zips == [] then []
    else
      var last := zips[|zips| - 1];
      Unlink(zips[..|zips| - 1], name) + (if last.name == name then [] else [last])
  }

  /** `aktionart === 'DELETE'` */
  predicate IsDelete(x: Node) {
    Text(Path(Some(x), ["verwaltung_techn", "aktion", "aktionart"])) == "DELETE"
  }

  /**
   * The id each object is filed under, `$immoObject->getId()`. The pass
   * takes it as a function, so the lemmas about the pass hold for any
   * way of naming objects.
   */
  function ObjectIds(slugDefault: bool): Node -> string {
    x => GetId(ImmoObject(x), None, slugDefault)
  }

  /** One iteration of the loop over the sorted archives. */
  function Step(p: Pass, a: Archive, dev: bool, objectId: Node -> string): Pass {
    if DirExists(p.extracted, a.name) then p
    else
      var ext := p.extracted[a.name := a.content];
      var zips := if dev then p.zips else Unlink(p.zips, a.name);
      match a.content.immobilie
      case None => Pass(Rename(ext, a.name, Broken(a.name)), zips, p.ids)
      case Some(x) =>
        var id := objectId(x);
        var ext1 := if DirExists(ext, id) then RemoveTree(ext, id) else ext;
        if IsDelete(x) then Pass(RemoveTree(ext1, a.name), zips, p.ids)
        else Pass(Rename(ext1, a.name, id), zips, p.ids + [id])
  }

  function Run(p: Pass, s: seq<Archive>, dev: bool, objectId: Node -> string): Pass {
    if s == [] then p else Step(Run(p, s[..|s| - 1], dev, objectId), s[|s| - 1], dev, objectId)
  }

  lemma RunSnoc(p: Pass, s: seq<Archive>, i: nat, dev: bool, objectId: Node -> string)
    requires i < |s|
    ensures Run(p, s[..i + 1], dev, objectId) == Step(Run(p, s[..i], dev, objectId), s[i], dev, objectId)
  {
    assert s[..i + 1][..i] == s[..i];
  }

  // ---------------------------------------------------------------------
  // The order of the pass: `usort` by token (stable, ascending)

  predicate SortedByToken(s: seq<Archive>) {
    forall i, j :: 0 <= i < j < |s| ==> s[i].token <= s[j].token
  }

  /** Insert `x` behind every element whose token is not larger. */
  function Insert(s: seq<Archive>, x: Archive): seq<Archive> {
    if s == [] || s[|s| - 1].token <= x.token then s + [x]
    else Insert(s[..|s| - 1], x) + [s[|s| - 1]]
  }

  function SortByToken(s: seq<Archive>): seq<Archive> {
    if s == [] then [] else Insert(SortByToken(s[..|s| - 1]), s[|s| - 1])
  }

  /** The archives carrying token `t`, in order. */
  function WithToken(s: seq<Archive>, t: nat): seq<Archive> {
    if s == [] then []
    else WithToken(s[..|s| - 1], t) + (if s[|s| - 1].token == t then [s[|s| - 1]] else [])
  }

  lemma {:induction false} InsertMultiset(s: seq<Archive>, x: Archive)
    ensures multiset(Insert(s, x)) == multiset(s) + multiset{x}
  {
    if !(s == [] || s[|s| - 1].token <= x.token) {
      InsertMultiset(s[..|s| - 1], x);
      assert s == s[..|s| - 1] + [s[|s| - 1]];
    }
  }

  lemma {:induction false} InsertBound(s: seq<Archive>, x: Archive, b: nat)
    requires forall i :: 0 <= i < |s| ==> s[i].token <= b
    requires x.token <= b
    ensures forall i :: 0 <= i < |Insert(s, x)| ==> Insert(s, x)[i].token <= b
  {
    if !(s == [] || s[|s| - 1].token <= x.token) {
      InsertBound(s[..|s| - 1], x, b);
    }
  }

  lemma {:induction false} InsertSorted(s: seq<Archive>, x: Archive)
    requires SortedByToken(s)
    ensures SortedByToken(Insert(s, x))
  {
    if !(s == [] || s[|s| - 1].token <= x.token) {
      var init, last := s[..|s| - 1], s[|s| - 1];
      InsertSorted(init, x);
      InsertBound(init, x, last.token);
    }
  }

  lemma {:induction false} InsertWithToken(s: seq<Archive>, x: Archive, t: nat)
    ensures WithToken(Insert(s, x), t) == WithToken(s, t) + (if x.token == t then [x] else [])
  {
    if s == [] || s[|s| - 1].token <= x.token {
      WithTokenSnoc(s, x, t);
    } else {
      var init, last := s[..|s| - 1], s[|s| - 1];
      var r := Insert(init, x);
      assert Insert(s, x) == r + [last];
      assert init + [last] == s;
      InsertWithToken(init, x, t);
      WithTokenSnoc(r, last, t);
      WithTokenSnoc(init, last, t);
      var tx := if x.token == t then [x] else [];
      var tl := if last.token == t then [last] else [];
      assert tx == [] || tl == [];
      calc {
        WithToken(Insert(s, x), t);
        WithToken(r, t) + tl;
        (WithToken(init, t) + tx) + tl;
        { assert tx + tl == tl + tx; }
        (WithToken(init, t) + tl) + tx;
        WithToken(s, t) + tx;
      }
    }
  }

  lemma WithTokenSnoc(s: seq<Archive>, x: Archive, t: nat)
    ensures WithToken(s + [x], t) == WithToken(s, t) + (if x.token == t then [x] else [])
  {
    assert (s + [x])[..|s|] == s;
  }

  /**
   * The pass visits the archives in ascending token order; it visits each
   * archive once, and archives with equal tokens keep their listing order.
   */
  lemma {:induction false} SortByTokenSpec(s: seq<Archive>)
    ensures SortedByToken(SortByToken(s))
    ensures multiset(SortByToken(s)) == multiset(s)
    ensures forall t :: WithToken(SortByToken(s), t) == WithToken(s, t)
  {
    if s != [] {
      var init, last := s[..|s| - 1], s[|s| - 1];
      SortByTokenSpec(init);
      InsertSorted(SortByToken(init), last);
      InsertMultiset(SortByToken(init), last);
      forall t ensures WithToken(SortByToken(s), t) == WithToken(s, t) {
        InsertWithToken(SortByToken(init), last, t);
      }
      assert s == init + [last];
    }
  }

  // ---------------------------------------------------------------------
  // One archive at a time

  /** An archive whose directory already exists is skipped: nothing is extracted, unlinked or recorded. */
  lemma StepSkips(p: Pass, a: Archive, dev: bool, objectId: Node -> string)
    requires DirExists(p.extracted, a.name)
    ensures Step(p, a, dev, objectId) == p
  {
  }

  /** Any other archive is extracted and, outside development mode, deleted at once. */
  lemma StepUnlinks(p: Pass, a: Archive, dev: bool, objectId: Node -> string)
    requires !DirExists(p.extracted, a.name)
    ensures forall z :: z in Step(p, a, dev, objectId).zips <==> z in p.zips && (dev || z.name != a.name)
  {
  }

  /**
   * An archive without openimmo.xml ends up as `_BROKEN__<name>`; no id is
   * recorded and no other directory changes.
   */
  lemma StepQuarantines(p: Pass, a: Archive, dev: bool, objectId: Node -> string)
    requires !DirExists(p.extracted, a.name) && a.content.immobilie.None?
    requires Broken(a.name) !in p.extracted
    ensures Step(p, a, dev, objectId).extracted == p.extracted[Broken(a.name) := a.content]
    ensures Step(p, a, dev, objectId).ids == p.ids
  {
    assert Broken(a.name) != a.name by {
      assert |Broken(a.name)| != |a.name|;
    }
  }

  /**
   * An archive for object `id` first removes any directory `id`; a DELETE
   * leaves neither `id` nor its own extraction and records nothing; any
   * other action moves the extraction to `id` and records `id`.
   */
  lemma StepApplies(p: Pass, a: Archive, dev: bool, objectId: Node -> string)
    requires !DirExists(p.extracted, a.name) && a.content.immobilie.Some?
    requires var id := objectId(a.content.immobilie.value); id != "" && id != a.name
    ensures var (x, q) := (a.content.immobilie.value, Step(p, a, dev, objectId));
      var id := objectId(x);
      if IsDelete(x) then q.extracted == p.extracted - {id} && q.ids == p.ids
      else q.extracted == p.extracted[id := a.content] && q.ids == p.ids + [id]
  {
    var x := a.content.immobilie.value;
    var id := objectId(x);
    var ext := p.extracted[a.name := a.content];
    var ext1 := if DirExists(ext, id) then RemoveTree(ext, id) else ext;
    var zips := if dev then p.zips else Unlink(p.zips, a.name);
    assert ext1 == ext - {id};
    assert a.name in ext1 && !DirExists(ext1, id);
    if IsDelete(x) {
      assert Step(p, a, dev, objectId) == Pass(RemoveTree(ext1, a.name), zips, p.ids);
      assert RemoveTree(ext1, a.name) == ext1 - {a.name} == p.extracted - {id};
    } else {
      assert Step(p, a, dev, objectId) == Pass(Rename(ext1, a.name, id), zips, p.ids + [id]);
      assert Rename(ext1, a.name, id) == (ext1 - {a.name})[id := a.content];
      assert (ext1 - {a.name})[id := a.content] == p.extracted[id := a.content];
    }
  }

  /**
   * An object id that is empty names the extract directory itself, so
   * applying the archive removes every extracted directory.
   */
  lemma EmptyIdWipesExtractDir(p: Pass, a: Archive, dev: bool, objectId: Node -> string)
    requires !DirExists(p.extracted, a.name) && a.content.immobilie.Some?
    requires objectId(a.content.immobilie.value) == ""
    ensures Step(p, a, dev, objectId).extracted == map[]
  {
  }

  /**
   * An archive named like the object it holds deletes its own fresh
   * extraction before the rename, yet still records the id.
   */
  lemma SelfNamedArchiveVanishes(p: Pass, a: Archive, dev: bool, objectId: Node -> string)
    requires !DirExists(p.extracted, a.name) && a.content.immobilie.Some?
    requires objectId(a.content.immobilie.value) == a.name
    requires !IsDelete(a.content.immobilie.value)
    ensures Step(p, a, dev, objectId).extracted == p.extracted
    ensures Step(p, a, dev, objectId).ids == p.ids + [a.name]
  {
    assert p.extracted[a.name := a.content] - {a.name} == p.extracted;
  }

  /** In development mode no archive is ever deleted. */
  lemma {:induction false} DevModeKeepsZips(p: Pass, s: seq<Archive>, objectId: Node -> string)
    ensures Run(p, s, true, objectId).zips == p.zips
  {
    if s != [] {
      DevModeKeepsZips(p, s[..|s| - 1], objectId);
    }
  }

  // ---------------------------------------------------------------------
  // The whole pass, for archives that do not collide with each other
  //
  // Where an archive's effect lands and whether a directory stays there
  // are given to the general lemmas as the functions `key` and `keeps`;
  // for the pass they are EffectKeys(objectId) and KeepsDir.

  /**
   * Where an archive's effect lands: its quarantine name when it has no
   * openimmo.xml, its object id otherwise.
   */
  function EffectKey(a: Archive, objectId: Node -> string): string {
    match a.content.immobilie
    case None => Broken(a.name)
    case Some(x) => objectId(x)
  }

  /** Whether the archive leaves a directory under its effect key: everything but a DELETE does. */
  predicate Keeps(a: Archive) {
    match a.content.immobilie
    case None => true
    case Some(x) => !IsDelete(x)
  }

  function EffectKeys(objectId: Node -> string): Archive -> string {
    a => EffectKey(a, objectId)
  }

  const KeepsDir: Archive -> bool := a => Keeps(a)

  /**
   * The archives have distinct non-empty names that are taken neither in
   * the extract directory nor by any effect, no effect key is empty, and a
   * quarantine name is neither taken nor the effect of another archive.
   */
  predicate Independent(ext: map<string, Dir>, s: seq<Archive>, key: Archive -> string) {
    (forall i, j :: 0 <= i < j < |s| ==> s[i].name != s[j].name)
    && (forall i :: 0 <= i < |s| ==> s[i].name != "" && s[i].name !in ext && key(s[i]) != "")
    && (forall i, j :: 0 <= i < |s| && 0 <= j < |s| ==> s[i].name != key(s[j]))
    && (forall i :: 0 <= i < |s| && s[i].content.immobilie.None? ==> key(s[i]) !in ext)
    && (forall i, j :: 0 <= i < |s| && 0 <= j < |s| && i != j && s[i].content.immobilie.None?
          ==> key(s[i]) != key(s[j]))
  }

  /** What one archive does when nothing collides. */
  function Apply(ext: map<string, Dir>, a: Archive, key: Archive -> string, keeps: Archive -> bool): map<string, Dir> {
    if keeps(a) then ext[key(a) := a.content] else ext - {key(a)}
  }

  function ApplyAll(ext: map<string, Dir>, s: seq<Archive>, key: Archive -> string, keeps: Archive -> bool): map<string, Dir> {
    if s == [] then ext else Apply(ApplyAll(ext, s[..|s| - 1], key, keeps), s[|s| - 1], key, keeps)
  }

  /** The ids of the archives that are neither broken nor deletions, in order. */
  function AppliedIds(s: seq<Archive>, objectId: Node -> string): seq<string> {
    if s == [] then []
    else
      var a := s[|s| - 1];
      AppliedIds(s[..|s| - 1], objectId)
        + (match a.content.immobilie
           case Some(x) => if IsDelete(x) then [] else [objectId(x)]
           case None => [])
  }

  /** The position of the last archive whose effect lands on `k`. */
  function LastEffect(s: seq<Archive>, k: string, key: Archive -> string): (r: Option<nat>)
    ensures r.Some? ==> r.value < |s| && key(s[r.value]) == k
    ensures r.Some? ==> forall j :: r.value < j < |s| ==> key(s[j]) != k
    ensures r.None? <==> forall j :: 0 <= j < |s| ==> key(s[j]) != k
  {
    if s == [] then None
    else if key(s[|s| - 1]) == k then Some(|s| - 1)
    else LastEffect(s[..|s| - 1], k, key)
  }

  /**
   * After the archives are applied, an entry is decided by the last
   * archive whose effect lands on it: kept with that archive's contents,
   * or gone after a DELETE; an entry no archive touches keeps what it had.
   */
  lemma {:induction false} ApplyAllSpec(ext: map<string, Dir>, s: seq<Archive>, k: string, key: Archive -> string, keeps: Archive -> bool)
    ensures match LastEffect(s, k, key)
      case None => (k in ApplyAll(ext, s, key, keeps) <==> k in ext)
                   && (k in ext ==> ApplyAll(ext, s, key, keeps)[k] == ext[k])
      case Some(i) => (k in ApplyAll(ext, s, key, keeps) <==> keeps(s[i]))
                      && (keeps(s[i]) ==> ApplyAll(ext, s, key, keeps)[k] == s[i].content)
  {
    if s != [] {
      var init := s[..|s| - 1];
      ApplyAllSpec(ext, init, k, key, keeps);
      if key(s[|s| - 1]) != k {
        assert LastEffect(s, k, key) == LastEffect(init, k, key);
        match LastEffect(init, k, key)
        case Some(i) => assert s[i] == init[i];
        case None =>
      }
    }
  }

  /** Every entry after the pass was there before or is the effect key of an archive. */
  lemma {:induction false} ApplyAllKeys(ext: map<string, Dir>, s: seq<Archive>, key: Archive -> string, keeps: Archive -> bool)
    ensures forall k :: k in ApplyAll(ext, s, key, keeps) ==> k in ext || exists j :: 0 <= j < |s| && key(s[j]) == k
  {
    if s != [] {
      var init := s[..|s| - 1];
      ApplyAllKeys(ext, init, key, keeps);
      forall k | k in ApplyAll(ext, s, key, keeps)
        ensures k in ext || exists j :: 0 <= j < |s| && key(s[j]) == k
      {
        if k != key(s[|s| - 1]) && k !in ext {
          var j :| 0 <= j < |init| && key(init[j]) == k;
          assert s[j] == init[j];
        }
      }
    }
  }

  lemma IndependentPrefix(ext: map<string, Dir>, s: seq<Archive>, n: nat, key: Archive -> string)
    requires Independent(ext, s, key) && n <= |s|
    ensures Independent(ext, s[..n], key)
  {
    var t := s[..n];
    assert forall i :: 0 <= i < n ==> t[i] == s[i];
  }

  /**
   * The last archive's entries are free before its step: its own name,
   * and its quarantine name when it is broken.
   */
  lemma IndependentFree(ext: map<string, Dir>, s: seq<Archive>, key: Archive -> string, keeps: Archive -> bool)
    requires Independent(ext, s, key) && s != []
    ensures var (e, a) := (ApplyAll(ext, s[..|s| - 1], key, keeps), s[|s| - 1]);
      a.name != "" && a.name !in e && key(a) != "" && a.name != key(a) &&
      (a.content.immobilie.None? ==> key(a) !in e)
  {
    var init, n := s[..|s| - 1], |s| - 1;
    ApplyAllKeys(ext, init, key, keeps);
    assert forall j :: 0 <= j < |init| ==> init[j] == s[j];
  }

  /** One more archive in the pass, when nothing collides, is the simple application. */
  lemma IndependentStep(ext: map<string, Dir>, s: seq<Archive>, p: Pass, dev: bool, objectId: Node -> string)
    requires Independent(ext, s, EffectKeys(objectId)) && s != []
    requires p.extracted == ApplyAll(ext, s[..|s| - 1], EffectKeys(objectId), KeepsDir)
    ensures Step(p, s[|s| - 1], dev, objectId).extracted == ApplyAll(ext, s, EffectKeys(objectId), KeepsDir)
    ensures Step(p, s[|s| - 1], dev, objectId).zips == if dev then p.zips else Unlink(p.zips, s[|s| - 1].name)
    ensures Step(p, s[|s| - 1], dev, objectId).ids == p.ids + AppliedIds(s, objectId)[|AppliedIds(s[..|s| - 1], objectId)|..]
  {
    var a := s[|s| - 1];
    IndependentFree(ext, s, EffectKeys(objectId), KeepsDir);
    assert EffectKeys(objectId)(a) == EffectKey(a, objectId);
    assert KeepsDir(a) == Keeps(a);
    if a.content.immobilie.None? {
      StepQuarantines(p, a, dev, objectId);
    } else {
      StepApplies(p, a, dev, objectId);
    }
  }

  /**
   * For archives that do not collide, the pass is the simple application
   * of each archive in turn: it records exactly the ids of the archives
   * that are neither broken nor deletions, in processing order.
   */
  lemma {:induction false} RunIndependent(p: Pass, s: seq<Archive>, dev: bool, objectId: Node -> string)
    requires Independent(p.extracted, s, EffectKeys(objectId))
    ensures Run(p, s, dev, objectId).extracted == ApplyAll(p.extracted, s, EffectKeys(objectId), KeepsDir)
    ensures Run(p, s, dev, objectId).ids == p.ids + AppliedIds(s, objectId)
  {
    if s != [] {
      var init := s[..|s| - 1];
      IndependentPrefix(p.extracted, s, |s| - 1, EffectKeys(objectId));
      RunIndependent(p, init, dev, objectId);
      var q := Run(p, init, dev, objectId);
      IndependentStep(p.extracted, s, q, dev, objectId);
      assert AppliedIds(s, objectId)[..|AppliedIds(init, objectId)|] == AppliedIds(init, objectId);
    }
  }

  /** Outside development mode, a pass over archives that do not collide deletes every one of them. */
  lemma {:induction false} RunUnlinksAll(p: Pass, s: seq<Archive>, dev: bool, objectId: Node -> string)
    requires Independent(p.extracted, s, EffectKeys(objectId))
    ensures forall z :: z in Run(p, s, dev, objectId).zips <==>
      z in p.zips && (dev || forall j :: 0 <= j < |s| ==> z.name != s[j].name)
  {
    if s != [] {
      var init, a := s[..|s| - 1], s[|s| - 1];
      IndependentPrefix(p.extracted, s, |s| - 1, EffectKeys(objectId));
      RunUnlinksAll(p, init, dev, objectId);
      RunLastZips(p, s, dev, objectId);
      UnlinkedSnoc(p.zips, Run(p, init, dev, objectId).zips, Run(p, s, dev, objectId).zips, init, a, dev);
      assert init + [a] == s;
    }
  }

  /** For archives that do not collide, each step of the pass unlinks its own archive (outside development mode). */
  lemma RunLastZips(p: Pass, s: seq<Archive>, dev: bool, objectId: Node -> string)
    requires Independent(p.extracted, s, EffectKeys(objectId)) && s != []
    ensures var q := Run(p, s[..|s| - 1], dev, objectId);
      Run(p, s, dev, objectId).zips == if dev then q.zips else Unlink(q.zips, s[|s| - 1].name)
  {
    var init := s[..|s| - 1];
    IndependentPrefix(p.extracted, s, |s| - 1, EffectKeys(objectId));
    RunIndependent(p, init, dev, objectId);
    IndependentStep(p.extracted, s, Run(p, init, dev, objectId), dev, objectId);
  }

  /** Unlinking one more archive's name keeps exactly the zips no archive of the pass is named like. */
  lemma UnlinkedSnoc(zips: seq<Archive>, before: seq<Archive>, after: seq<Archive>, init: seq<Archive>, a: Archive, dev: bool)
    requires forall z :: z in before <==> z in zips && (dev || forall j :: 0 <= j < |init| ==> z.name != init[j].name)
    requires after == if dev then before else Unlink(before, a.name)
    ensures forall z :: z in after <==> z in zips && (dev || forall j :: 0 <= j < |init + [a]| ==> z.name != (init + [a])[j].name)
  {
    forall z ensures z in after <==> z in zips && (dev || forall j :: 0 <= j < |init + [a]| ==> z.name != (init + [a])[j].name) {
      assert (forall j :: 0 <= j < |init + [a]| ==> z.name != (init + [a])[j].name) <==>
        (forall j :: 0 <= j < |init| ==> z.name != init[j].name) && z.name != a.name by {
        assert forall j :: 0 <= j < |init| ==> (init + [a])[j] == init[j];
        assert (init + [a])[|init|] == a;
      }
    }
  }

  /**
   * The outcome for an entry `x`, for archives in token order that do not
   * collide: the archive for `x` with the largest token (the last of
   * equals) decides. After a DELETE nothing is left under `x`; otherwise
   * `x` holds that archive's contents. None of the archives' own
   * directories remains.
   */
  lemma NewestArchiveDecides(p: Pass, s: seq<Archive>, x: string, dev: bool, objectId: Node -> string)
    requires Independent(p.extracted, s, EffectKeys(objectId)) && SortedByToken(s)
    requires LastEffect(s, x, EffectKeys(objectId)).Some?
    ensures var i := LastEffect(s, x, EffectKeys(objectId)).value;
      forall j :: 0 <= j < |s| && EffectKey(s[j], objectId) == x ==> s[j].token <= s[i].token
    ensures var (i, ext) := (LastEffect(s, x, EffectKeys(objectId)).value, Run(p, s, dev, objectId).extracted);
      (x in ext <==> Keeps(s[i])) && (Keeps(s[i]) ==> ext[x] == s[i].content)
    ensures forall j :: 0 <= j < |s| ==> s[j].name !in Run(p, s, dev, objectId).extracted
  {
    RunIndependent(p, s, dev, objectId);
    ApplyAllSpec(p.extracted, s, x, EffectKeys(objectId), KeepsDir);
    ApplyAllKeys(p.extracted, s, EffectKeys(objectId), KeepsDir);
    var i := LastEffect(s, x, EffectKeys(objectId)).value;
    forall j | 0 <= j < |s| && EffectKey(s[j], objectId) == x ensures s[j].token <= s[i].token {
      assert EffectKeys(objectId)(s[j]) == x;
    }
    assert KeepsDir(s[i]) == Keeps(s[i]);
  }

  /**
   * A broken archive is isolated: its quarantine directory holds its
   * contents after the pass.
   */
  lemma BrokenArchiveIsolated(p: Pass, s: seq<Archive>, i: nat, dev: bool, objectId: Node -> string)
    requires Independent(p.extracted, s, EffectKeys(objectId)) && i < |s| && s[i].content.immobilie.None?
    ensures Broken(s[i].name) in Run(p, s, dev, objectId).extracted
    ensures Run(p, s, dev, objectId).extracted[Broken(s[i].name)] == s[i].content
  {
    RunIndependent(p, s, dev, objectId);
    var key := EffectKeys(objectId);
    assert key(s[i]) == Broken(s[i].name);
    ApplyAllSpec(p.extracted, s, key(s[i]), key, KeepsDir);
    assert LastEffect(s, key(s[i]), key) == Some(i);
    assert KeepsDir(s[i]);
  }

  /** Broken archives and deletions record no id. */
  lemma {:induction false} NoIdsWithoutApplied(s: seq<Archive>, objectId: Node -> string)
    requires forall i :: 0 <= i < |s| ==> !Keeps(s[i]) || s[i].content.immobilie.None?
    ensures AppliedIds(s, objectId) == []
  {
    if s != [] {
      NoIdsWithoutApplied(s[..|s| - 1], objectId);
    }
  }

  // ---------------------------------------------------------------------
  // The base directory on disk

  /**
   * The files updateDataStorage works on under BASE_DIR: the zip archives
   * in glob order, the extract directory, and the content of
   * objectId2xmlDatafileUri.json (`None` before it is first written).
   */
  class DataStorage {
    var zips: seq<Archive>
    var extracted: map<string, Dir>
    var idIndex: Option<seq<string>>

    constructor(zips: seq<Archive>, extracted: map<string, Dir>)
      ensures this.zips == zips && this.extracted == extracted && idIndex.None?
    {
      this.zips := zips;
      this.extracted := extracted;
      idIndex := None;
    }
  }
}
