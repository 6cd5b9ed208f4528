/**
 * getCharge/fetch_rooms.py past its HTTP calls: finding the room list in a
 * decoded response, turning each entry into a room record, and the crawl
 * that keeps the first record of every (campus, building, room).
 */
module Rooms {
  import opened Wrappers
  import opened PyJson

  // ---------------------------------------------------------------------
  // pick_map_data

  /** `d.get(k)` is a dict: its entries. */
  function DictAt(fields: Fields, k: string): Option<Fields> {
    match Get(fields, k)
    case Some(JObj(m)) => Some(m)
    case _ => None
  }

  /** `map_obj["data"]` when the key is there, else `{}`. */
  function DataOf(m: Fields): Json {
    match Get(m, "data")
    case Some(v) => v
    case None => JObj([])
  }

  /** The fallback map: that of the first of `data`, `result` holding a dict with a dict `map`. */
  function FallbackMap(fields: Fields): Option<Fields> {
    match DictAt(fields, "data")
    case Some(v) =>
      (match DictAt(v, "map")
       case Some(m) => Some(m)
       case None =>
         match DictAt(fields, "result")
         case Some(w) => DictAt(w, "map")
         case None => None)
    case None =>
      match DictAt(fields, "result")
      case Some(w) => DictAt(w, "map")
      case None => None
  }

  /**
   * `pick_map_data(obj)`: the `data` of `obj.map` when that is a non-empty
   * dict, else of the first of `obj.data.map`, `obj.result.map` that is a
   * dict; `{}` for anything else.
   */
  function PickMapData(obj: Json): (r: Json)
    ensures !obj.JObj? ==> r == JObj([])
    ensures r == JObj([]) ||
      (exists m :: (DictAt(obj.fields, "map") == Some(m) || FallbackMap(obj.fields) == Some(m)) &&
                   Get(m, "data") == Some(r))
  {
    if !obj.JObj? then JObj([])
    else
      var primary := DictAt(obj.fields, "map");
      if primary.Some? && primary.value != [] then DataOf(primary.value)
      else
        match FallbackMap(obj.fields)
        case Some(m) => DataOf(m)
        case None => JObj([])
  }

  /** A non-empty dict under `map` is used, whatever `data` and `result` hold. */
  lemma PickMapPrimary(fields: Fields, m: Fields)
    requires Get(fields, "map") == Some(JObj(m)) && m != []
    ensures PickMapData(JObj(fields)) == if "data" in Keys(m) then Get(m, "data").value else JObj([])
  {
  }

  /** An absent, empty or non-dict `map` falls back to `data.map`, then `result.map`. */
  lemma PickMapFallback(fields: Fields, key: string, v: Fields, m: Fields)
    requires DictAt(fields, "map").None? || DictAt(fields, "map") == Some([])
    requires key == "data" || key == "result"
    requires DictAt(fields, key) == Some(v) && DictAt(v, "map") == Some(m)
    requires key == "result" ==> DictAt(fields, "data").None? || DictAt(DictAt(fields, "data").value, "map").None?
    ensures PickMapData(JObj(fields)) == if "data" in Keys(m) then Get(m, "data").value else JObj([])
  {
  }

  // ---------------------------------------------------------------------
  // iter_rooms

  /** The dict elements of a list, in order. */
  function DictsOf(items: seq<Json>): (r: seq<Fields>)
    ensures |r| <= |items|
    ensures forall f :: f in r <==> JObj(f) in items
  {
    if items == [] then []
    else
      var rest := DictsOf(items[1..]);
      assert forall f :: JObj(f) in items <==> JObj(f) == items[0] || JObj(f) in items[1..];
      match items[0]
      case JObj(f) => [f] + rest
      case _ => rest
  }

  /** Filtering keeps the order: a list of dicts is yielded element by element. */
  lemma {:induction false} DictsOfAllDicts(items: seq<Json>)
    requires forall i :: 0 <= i < |items| ==> items[i].JObj?
    ensures |DictsOf(items)| == |items|
    ensures forall i :: 0 <= i < |items| ==> DictsOf(items)[i] == items[i].fields
  {
    if items != [] {
      DictsOfAllDicts(items[1..]);
    }
  }

  /** Filtering distributes over concatenation, so order is kept. */
  lemma {:induction false} DictsOfAppend(a: seq<Json>, b: seq<Json>)
    ensures DictsOf(a + b) == DictsOf(a) + DictsOf(b)
  {
    if a == [] {
      assert a + b == b;
    } else {
      assert (a + b)[1..] == a[1..] + b;
      assert (a + b)[0] == a[0];
      DictsOfAppend(a[1..], b);
    }
  }

  /** The keys whose list value holds the rooms, in the order they are tried. */
  const ListKeys: seq<string> := ["list", "rows", "items", "data", "result"]

  /** The index of the first of `keys` whose value in `fields` is a list. */
  function FirstList(fields: Fields, keys: seq<string>): (r: Option<nat>)
    ensures r.None? <==> forall i :: 0 <= i < |keys| ==> !IsListAt(fields, keys[i])
    ensures r.Some? ==> r.value < |keys| && IsListAt(fields, keys[r.value])
    ensures r.Some? ==> forall i :: 0 <= i < r.value ==> !IsListAt(fields, keys[i])
  {
    if keys == [] then None
    else if IsListAt(fields, keys[0]) then Some(0)
    else
      match FirstList(fields, keys[1..])
      case None => None
      case Some(i) => Some(i + 1)
  }

  predicate IsListAt(fields: Fields, k: string) {
    Get(fields, k).Some? && Get(fields, k).value.JArr?
  }

  /** `list(iter_rooms(data_field))`. */
  function IterRooms(d: Json): (r: seq<Fields>)
    ensures !d.JArr? && !d.JObj? ==> r == []
    ensures d.JArr? ==> r == DictsOf(d.items)
  {
    match d
    case JArr(items) => DictsOf(items)
    case JObj(fields) =>
      (match FirstList(fields, ListKeys)
       case Some(i) => DictsOf(Get(fields, ListKeys[i]).value.items)
       case None =>
         if "value" in Keys(fields) || "name" in Keys(fields) then [fields] else [])
    case _ => []
  }

  /** In a dict, the first of the five keys holding a list decides, even an empty list. */
  lemma IterRoomsFirstList(fields: Fields, i: nat)
    requires i < |ListKeys| && IsListAt(fields, ListKeys[i])
    requires forall j :: 0 <= j < i ==> !IsListAt(fields, ListKeys[j])
    ensures IterRooms(JObj(fields)) == DictsOf(Get(fields, ListKeys[i]).value.items)
  {
  }

  /** A dict without any of those lists is itself the one room iff it has `value` or `name`. */
  lemma IterRoomsSelf(fields: Fields)
    requires forall j :: 0 <= j < |ListKeys| ==> !IsListAt(fields, ListKeys[j])
    ensures IterRooms(JObj(fields)) == if "value" in Keys(fields) || "name" in Keys(fields) then [fields] else []
  {
  }

  // ---------------------------------------------------------------------
  // to_room_record

  datatype RoomRecord = RoomRecord(
    feeitemid: string, kind: string, level: string,
    campus: string, building: string, room: string, name: string)

  type RoomKey = (string, string, string)

  function Key(r: RoomRecord): RoomKey {
    (r.campus, r.building, r.room)
  }

  predicate TruthyAt(item: Fields, k: string) {
    Get(item, k).Some? && Truthy(Get(item, k).value)
  }

  /** `item.get("name") or item.get("label") or item.get("text") or ""`. */
  function NameOf(item: Fields): Json {
    if TruthyAt(item, "name") then Get(item, "name").value
    else if TruthyAt(item, "label") then Get(item, "label").value
    else if TruthyAt(item, "text") then Get(item, "text").value
    else JStr("")
  }

  /** `to_room_record(campus_code, building_code, item)`, with the codes already `str`. */
  function ToRoomRecord(campus: string, building: string, item: Fields): (r: RoomRecord)
    ensures r.feeitemid == "409" && r.kind == "IEC" && r.level == "3"
    ensures r.campus == campus && r.building == building
    ensures r.room == "" <==> Get(item, "value") in {None, Some(JNull), Some(JStr(""))}
    ensures r.name == "" <==> !TruthyAt(item, "name") && !TruthyAt(item, "label") && !TruthyAt(item, "text")
    ensures Get(item, "value").Some? && Get(item, "value").value != JNull ==>
      r.room == PyStr(Get(item, "value").value)
    ensures TruthyAt(item, "name") ==> r.name == PyStr(Get(item, "name").value)
    ensures !TruthyAt(item, "name") && TruthyAt(item, "label") ==>
      r.name == PyStr(Get(item, "label").value)
    ensures !TruthyAt(item, "name") && !TruthyAt(item, "label") && TruthyAt(item, "text") ==>
      r.name == PyStr(Get(item, "text").value)
  {
    var val := Get(item, "value");
    RoomRecord("409", "IEC", "3", campus, building,
               if val.None? || val.value == JNull then "" else PyStr(val.value),
               PyStr(NameOf(item)))
  }

  /** The records of one building's answer, in order. */
  function Records(campus: string, building: string, items: seq<Fields>): (recs: seq<RoomRecord>)
    ensures |recs| == |items|
  {
    seq(|items|, i requires 0 <= i < |items| => ToRoomRecord(campus, building, items[i]))
  }

  // ---------------------------------------------------------------------
  // The dedup loop of main

  function KeysOf(recs: seq<RoomRecord>): set<RoomKey> {
    set i | 0 <= i < |recs| :: Key(recs[i])
  }

  predicate DistinctKeys(recs: seq<RoomRecord>) {
    forall i, j :: 0 <= i < j < |recs| ==> Key(recs[i]) != Key(recs[j])
  }

  lemma KeysOfOne(r: RoomRecord)
    ensures KeysOf([r]) == {Key(r)}
  {
    assert [r][0] == r;
  }

  lemma KeysOfAppend(a: seq<RoomRecord>, b: seq<RoomRecord>)
    ensures KeysOf(a + b) == KeysOf(a) + KeysOf(b)
  {
    forall k | k in KeysOf(a)
      ensures k in KeysOf(a + b)
    {
      var i :| 0 <= i < |a| && Key(a[i]) == k;
      assert Key((a + b)[i]) == k;
    }
    forall k | k in KeysOf(a + b)
      ensures k in KeysOf(a) + KeysOf(b)
    {
      var i :| 0 <= i < |a + b| && Key((a + b)[i]) == k;
      if i >= |a| {
        assert Key(b[i - |a|]) == k;
      }
    }
    forall k | k in KeysOf(b)
      ensures k in KeysOf(a + b)
    {
      var i :| 0 <= i < |b| && Key(b[i]) == k;
      assert Key((a + b)[|a| + i]) == k;
    }
  }

  /**
   * What the loop adds for `recs` when `seen` holds the keys met before:
   * each record whose key is neither in `seen` nor met earlier in `recs`.
   */
  function Dedup(seen: set<RoomKey>, recs: seq<RoomRecord>): seq<RoomRecord>
    decreases |recs|
  {
    if recs == [] then []
    else
      var prefix := recs[..|recs| - 1];
      var last := recs[|recs| - 1];
      if Key(last) in seen + KeysOf(prefix) then Dedup(seen, prefix)
      else Dedup(seen, prefix) + [last]
  }

  /** The records kept have distinct keys, none of them already seen, and
      between them cover every new key. */
  lemma {:induction false} DedupKeys(seen: set<RoomKey>, recs: seq<RoomRecord>)
    ensures DistinctKeys(Dedup(seen, recs))
    ensures KeysOf(Dedup(seen, recs)) == KeysOf(recs) - seen
    decreases |recs|
  {
    if recs != [] {
      var prefix := recs[..|recs| - 1];
      var last := recs[|recs| - 1];
      DedupKeys(seen, prefix);
      assert recs == prefix + [last];
      KeysOfAppend(prefix, [last]);
      KeysOfOne(last);
      if Key(last) !in seen + KeysOf(prefix) {
        KeysOfAppend(Dedup(seen, prefix), [last]);
        var d := Dedup(seen, recs);
        forall i, j | 0 <= i < j < |d|
          ensures Key(d[i]) != Key(d[j])
        {
          if j == |d| - 1 {
            assert Key(d[i]) in KeysOf(Dedup(seen, prefix));
          }
        }
      }
    }
  }

  /**
   * The same filter read from the front: walk the records, keep one when
   * its key has not been seen, and remember it.
   */
  function KeepFirst(seen: set<RoomKey>, recs: seq<RoomRecord>): seq<RoomRecord>
    decreases |recs|
  {
    if recs == [] then []
    else if Key(recs[0]) in seen then KeepFirst(seen, recs[1..])
    else [recs[0]] + KeepFirst(seen + {Key(recs[0])}, recs[1..])
  }

  lemma {:induction false} KeepFirstSnoc(seen: set<RoomKey>, a: seq<RoomRecord>, r: RoomRecord)
    ensures KeepFirst(seen, a + [r]) ==
      KeepFirst(seen, a) + (if Key(r) in seen + KeysOf(a) then [] else [r])
    decreases |a|
  {
    if a == [] {
      assert [r][1..] == [];
    } else {
      assert (a + [r])[1..] == a[1..] + [r];
      var s' := if Key(a[0]) in seen then seen else seen + {Key(a[0])};
      KeepFirstSnoc(s', a[1..], r);
      KeysOfAppend([a[0]], a[1..]);
      assert a == [a[0]] + a[1..];
      KeysOfOne(a[0]);
    }
  }

  /** The loop keeps the first record of every new key, in order. */
  lemma {:induction false} DedupKeepsFirst(seen: set<RoomKey>, recs: seq<RoomRecord>)
    ensures Dedup(seen, recs) == KeepFirst(seen, recs)
    decreases |recs|
  {
    if recs != [] {
      var prefix := recs[..|recs| - 1];
      var last := recs[|recs| - 1];
      DedupKeepsFirst(seen, prefix);
      assert recs == prefix + [last];
      KeepFirstSnoc(seen, prefix, last);
    }
  }

  /** Deduplicating two batches in turn is deduplicating them together. */
  lemma {:induction false} DedupAppend(seen: set<RoomKey>, a: seq<RoomRecord>, b: seq<RoomRecord>)
    ensures Dedup(seen, a + b) == Dedup(seen, a) + Dedup(seen + KeysOf(a), b)
    decreases |b|
  {
    if b == [] {
      assert a + b == a;
    } else {
      var prefix := b[..|b| - 1];
      var last := b[|b| - 1];
      DedupAppend(seen, a, prefix);
      assert (a + b)[..|a + b| - 1] == a + prefix;
      assert (a + b)[|a + b| - 1] == last;
      KeysOfAppend(a, prefix);
    }
  }

  /** One more record: it is kept iff its key is new. */
  lemma DedupStep(seen: set<RoomKey>, recs: seq<RoomRecord>, i: nat)
    requires i < |recs|
    ensures Dedup(seen, recs[..i + 1]) ==
      Dedup(seen, recs[..i]) + (if Key(recs[i]) in seen + KeysOf(recs[..i]) then [] else [recs[i]])
    ensures KeysOf(recs[..i + 1]) == KeysOf(recs[..i]) + {Key(recs[i])}
  {
    assert recs[..i + 1] == recs[..i] + [recs[i]];
    assert recs[..i + 1][..i] == recs[..i];
    KeysOfAppend(recs[..i], [recs[i]]);
    KeysOfOne(recs[i]);
  }

  /** Records without repeated keys, extended by the new records of a batch,
      still have no repeated key, and their keys are the old ones and the
      batch's. */
  lemma DedupExtends(rooms: seq<RoomRecord>, seen: set<RoomKey>, recs: seq<RoomRecord>)
    requires seen == KeysOf(rooms) && DistinctKeys(rooms)
    ensures DistinctKeys(rooms + Dedup(seen, recs))
    ensures KeysOf(rooms + Dedup(seen, recs)) == seen + KeysOf(recs)
  {
    var d := Dedup(seen, recs);
    DedupKeys(seen, recs);
    KeysOfAppend(rooms, d);
    forall i, j | 0 <= i < j < |rooms + d|
      ensures Key((rooms + d)[i]) != Key((rooms + d)[j])
    {
      if i < |rooms| <= j {
        assert Key(rooms[i]) in seen;
        assert Key(d[j - |rooms|]) in KeysOf(d);
      }
    }
  }

  /** With distinct keys there are as many keys as records. */
  lemma {:induction false} DistinctKeysCount(recs: seq<RoomRecord>)
    requires DistinctKeys(recs)
    ensures |KeysOf(recs)| == |recs|
    decreases |recs|
  {
    if recs != [] {
      var prefix := recs[..|recs| - 1];
      var last := recs[|recs| - 1];
      assert DistinctKeys(prefix);
      DistinctKeysCount(prefix);
      assert recs == prefix + [last];
      KeysOfAppend(prefix, [last]);
      KeysOfOne(last);
      assert Key(last) !in KeysOf(prefix);
    }
  }

  /**
   * The test-and-record loop of `main` over one batch, starting from the
   * keys seen so far: `kept` are the records appended to `all_rooms`, in
   * order, and `keys` is `seen` afterwards.
   */
  method NewRecords(seen: set<RoomKey>, recs: seq<RoomRecord>) returns (kept: seq<RoomRecord>, keys: set<RoomKey>)
    ensures kept == Dedup(seen, recs)
    ensures keys == seen + KeysOf(recs)
  {
    kept, keys := [], seen;
    var i := 0;
    while i < |recs|
      invariant 0 <= i <= |recs|
      invariant kept == Dedup(seen, recs[..i])
      invariant keys == seen + KeysOf(recs[..i])
    {
      var rec := recs[i];
      DedupStep(seen, recs, i);
      var key := Key(rec);
      if key !in keys {
        keys := keys + {key};
        kept := kept + [rec];
      }
      i := i + 1;
    }
    assert recs[..i] == recs;
  }

  /** `all_rooms` and `seen` of `main`. */
  class RoomCatalog {
    var allRooms: seq<RoomRecord>
    var seen: set<RoomKey>

    /** `seen` holds exactly the keys of `all_rooms`, each once. */
    predicate Valid()
      reads this
    {
      seen == KeysOf(allRooms) && DistinctKeys(allRooms)
    }

    constructor()
      ensures Valid() && allRooms == [] && seen == {}
    {
      allRooms := [];
      seen := {};
    }

    /** `len(all_rooms) == len(seen)` whenever the catalog is valid. */
    lemma SizesAgree()
      requires Valid()
      ensures |allRooms| == |seen|
    {
      DistinctKeysCount(allRooms);
    }

    /**
     * The body of the inner loop of `main`, record by record: a record whose
     * key was seen is dropped, any other is recorded and counted. `cnt` is
     * the number appended.
     */
    method AddRecords(recs: seq<RoomRecord>) returns (cnt: nat)
      requires Valid()
      modifies this
      ensures Valid()
      ensures allRooms == old(allRooms) + Dedup(old(seen), recs)
      ensures seen == old(seen) + KeysOf(recs)
      ensures cnt == |allRooms| - |old(allRooms)|
    {
      var kept, keys := NewRecords(seen, recs);
      DedupExtends(allRooms, seen, recs);
      allRooms, seen := allRooms + kept, keys;
      cnt := |kept|;
    }

    /** The inner loop of `main` for one building: each room entry becomes a
        record, which is then kept or dropped as `AddRecords` says. */
    method AddBuilding(campus: string, building: string, items: seq<Fields>) returns (cnt: nat)
      requires Valid()
      modifies this
      ensures Valid()
      ensures allRooms == old(allRooms) + Dedup(old(seen), Records(campus, building, items))
      ensures seen == old(seen) + KeysOf(Records(campus, building, items))
      ensures cnt == |allRooms| - |old(allRooms)|
    {
      cnt := AddRecords(Records(campus, building, items));
    }
  }

  /** One building of the crawl: its codes and the decoded answer, `None`
      when the request failed or the answer was not JSON. */
  datatype Visit = Visit(campus: string, building: string, answer: Option<Json>)

  /** The room entries a visit yields. */
  function VisitItems(v: Visit): seq<Fields> {
    match v.answer
    case Some(obj) => IterRooms(PickMapData(obj))
    case None => []
  }

  /** The records of one visit. */
  function VisitRecords(v: Visit): seq<RoomRecord> {
    Records(v.campus, v.building, VisitItems(v))
  }

  /** The records of every visit, in crawl order. */
  function AllRecords(visits: seq<Visit>): seq<RoomRecord>
    decreases |visits|
  {
    if visits == [] then []
    else AllRecords(visits[..|visits| - 1]) + VisitRecords(visits[|visits| - 1])
  }

  lemma AllRecordsStep(visits: seq<Visit>, i: nat)
    requires i < |visits|
    ensures AllRecords(visits[..i + 1]) == AllRecords(visits[..i]) + VisitRecords(visits[i])
  {
    assert visits[..i + 1][..i] == visits[..i];
  }

  /** The catalog after one more visit is the catalog of all visits so far. */
  lemma CrawlStep(prev: seq<RoomRecord>, more: seq<RoomRecord>)
    ensures Dedup({}, prev) + Dedup(KeysOf(prev), more) == Dedup({}, prev + more)
    ensures KeysOf(prev) + KeysOf(more) == KeysOf(prev + more)
  {
    DedupAppend({}, prev, more);
    assert {} + KeysOf(prev) == KeysOf(prev);
    KeysOfAppend(prev, more);
  }

  function Sum(ns: seq<nat>): nat {
    if ns == [] then 0 else Sum(ns[..|ns| - 1]) + ns[|ns| - 1]
  }

  /**
   * The crawl of `main`: every visit feeds its rooms to the catalog; a
   * failed visit adds nothing. The result is `all_rooms` and the count
   * printed for each visit.
   */
  method Crawl(visits: seq<Visit>) returns (rooms: seq<RoomRecord>, counts: seq<nat>)
    ensures rooms == KeepFirst({}, AllRecords(visits))
    ensures DistinctKeys(rooms) && KeysOf(rooms) == KeysOf(AllRecords(visits))
    ensures |counts| == |visits| && Sum(counts) == |rooms|
  {
    var catalog := new RoomCatalog();
    counts := [];
    var i := 0;
    while i < |visits|
      invariant 0 <= i <= |visits|
      invariant catalog.Valid()
      invariant catalog.allRooms == Dedup({}, AllRecords(visits[..i]))
      invariant catalog.seen == KeysOf(AllRecords(visits[..i]))
      invariant |counts| == i && Sum(counts) == |catalog.allRooms|
    {
      var v := visits[i];
      ghost var prev := AllRecords(visits[..i]);
      AllRecordsStep(visits, i);
      var cnt := catalog.AddBuilding(v.campus, v.building, VisitItems(v));
      CrawlStep(prev, VisitRecords(v));
      assert (counts + [cnt])[..i] == counts;
      counts := counts + [cnt];
      i := i + 1;
    }
    assert visits[..i] == visits;
    rooms := catalog.allRooms;
    DedupKeepsFirst({}, AllRecords(visits));
    DedupKeys({}, AllRecords(visits));
  }
}
