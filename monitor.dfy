/**
 * The pieces of getCharge/main.py that do not talk to the network: the
 * room-to-contact map read from the e-mail list and the split of a
 * contact into the address and the resident's name.
 */
module Monitor {
  import opened Wrappers
  import opened Text
  import opened PyJson

  /** The exceptions these steps can raise. */
  datatype Raised = KeyError | TypeError | AttributeError | ValueError

  /** A value Python can use as a dict key: anything but a list or a dict. */
  predicate Hashable(j: Json) { !j.JArr? && !j.JObj? }

  /** `d["room"]` and `d["email"]` of one e-mail record, if both can be read. */
  function ContactEntry(d: Json): Option<(Json, Json)> {
    if !d.JObj? then None
    else
      match (Get(d.fields, "room"), Get(d.fields, "email"))
      case (Some(room), Some(email)) => if Hashable(room) then Some((room, email)) else None
      case _ => None
  }

  /** The comprehension over a list of records, one record after the other;
      `None` once a record cannot be read. */
  function EntriesMap(items: seq<Json>): (r: Option<map<Json, Json>>)
    ensures r.Some? ==> forall i :: 0 <= i < |items| ==> ContactEntry(items[i]).Some?
    decreases |items|
  {
    if items == [] then Some(map[])
    else
      var last := items[|items| - 1];
      match (EntriesMap(items[..|items| - 1]), ContactEntry(last))
      case (Some(m), Some((room, email))) =>
        assert forall i :: 0 <= i < |items| - 1 ==> items[i] == items[..|items| - 1][i];
        Some(m[room := email])
      case _ => None
  }

  /**
   * `{d["room"]: d["email"] for d in emailData}`; `None` when it raises,
   * which makes `main` log the error and return. Iterating a dict or a
   * string walks its keys or characters, which cannot be subscripted by
   * `"room"`, so only an empty one gets through.
   */
  function EmailMap(emailData: Json): (r: Option<map<Json, Json>>)
    ensures emailData.JArr? ==> (r.Some? <==> forall i :: 0 <= i < |emailData.items| ==> ContactEntry(emailData.items[i]).Some?)
    ensures !emailData.JArr? ==> (r.Some? <==> emailData == JObj([]) || emailData == JStr(""))
  {
    match emailData
    case JArr(items) =>
      EntriesMapDefined(items);
      EntriesMap(items)
    case JObj(fields) => if fields == [] then Some(map[]) else None
    case JStr(s) => if s == "" then Some(map[]) else None
    case _ => None
  }

  /** Every list of readable records gives a map. */
  lemma {:induction false} EntriesMapDefined(items: seq<Json>)
    ensures EntriesMap(items).Some? <==> forall i :: 0 <= i < |items| ==> ContactEntry(items[i]).Some?
    decreases |items|
  {
    if items != [] {
      var prefix := items[..|items| - 1];
      EntriesMapDefined(prefix);
      assert forall i :: 0 <= i < |prefix| ==> prefix[i] == items[i];
    }
  }

  /** One step of the comprehension: the map of all records is the map of
      all but the last, updated with the last one. */
  lemma EntriesMapStep(items: seq<Json>)
    requires EntriesMap(items).Some? && items != []
    ensures EntriesMap(items[..|items| - 1]).Some?
    ensures ContactEntry(items[|items| - 1]).Some?
    ensures var (room, email) := ContactEntry(items[|items| - 1]).value;
      EntriesMap(items).value == EntriesMap(items[..|items| - 1]).value[room := email]
  {
  }

  /** The room of record `i` is mapped to the address of the last record with that room. */
  lemma {:induction false} EmailMapLastWins(items: seq<Json>, i: nat)
    requires EntriesMap(items).Some? && i < |items|
    requires forall j :: i < j < |items| ==> ContactEntry(items[j]).value.0 != ContactEntry(items[i]).value.0
    ensures ContactEntry(items[i]).value.0 in EntriesMap(items).value
    ensures EntriesMap(items).value[ContactEntry(items[i]).value.0] == ContactEntry(items[i]).value.1
    decreases |items|
  {
    var prefix := items[..|items| - 1];
    EntriesMapStep(items);
    if i < |items| - 1 {
      assert prefix[i] == items[i];
      forall j | i < j < |prefix|
        ensures ContactEntry(prefix[j]).value.0 != ContactEntry(prefix[i]).value.0
      {
        assert prefix[j] == items[j];
      }
      EmailMapLastWins(prefix, i);
    }
  }

  /** The room of record `i` is in the map. */
  lemma {:induction false} EmailMapHasRoom(items: seq<Json>, i: nat)
    requires EntriesMap(items).Some? && i < |items|
    ensures ContactEntry(items[i]).value.0 in EntriesMap(items).value
    decreases |items|
  {
    var prefix := items[..|items| - 1];
    EntriesMapStep(items);
    var last := ContactEntry(items[|items| - 1]).value;
    var before := EntriesMap(prefix).value;
    var key := ContactEntry(items[i]).value.0;
    assert EntriesMap(items).value == before[last.0 := last.1];
    if i < |prefix| {
      assert prefix[i] == items[i];
      EmailMapHasRoom(prefix, i);
      assert key in before;
    } else {
      assert key == last.0;
    }
  }

  /** Every room of the map comes from some record. */
  lemma {:induction false} EmailMapRoomFrom(items: seq<Json>, room: Json) returns (i: nat)
    requires EntriesMap(items).Some? && room in EntriesMap(items).value
    ensures i < |items| && ContactEntry(items[i]).value.0 == room
    decreases |items|
  {
    var prefix := items[..|items| - 1];
    EntriesMapStep(items);
    if room == ContactEntry(items[|items| - 1]).value.0 {
      i := |items| - 1;
    } else {
      i := EmailMapRoomFrom(prefix, room);
      assert prefix[i] == items[i];
    }
  }

  /**
   * `email, master = emailMap[roomInfo['room']].split(",")[:2]`, which runs
   * outside the `try` of the loop, so any error here ends `main`.
   */
  function RoomContact(emailMap: map<Json, Json>, roomInfo: Json): (r: Result<(string, string), Raised>)
    ensures r.Ok? ==> ',' !in r.value.0 && ',' !in r.value.1
  {
    if !roomInfo.JObj? then Err(TypeError)
    else
      match Get(roomInfo.fields, "room")
      case None => Err(KeyError)
      case Some(room) =>
        if !Hashable(room) then Err(TypeError)
        else if room !in emailMap then Err(KeyError)
        else
          match emailMap[room]
          case JStr(s) =>
            var parts := Split(s, ',');
            if |parts| < 2 then Err(ValueError) else Ok((parts[0], parts[1]))
          case _ => Err(AttributeError)
  }

  /** The address and the name are the text before the first comma and
      between the first and the second; anything after is ignored. */
  lemma ContactRoundTrip(email: string, master: string, rest: string)
    requires ',' !in email && ',' !in master
    requires rest == "" || rest[0] == ','
    ensures var parts := Split(email + "," + master + rest, ',');
      |parts| >= 2 && parts[0] == email && parts[1] == master
  {
    var s := email + "," + master + rest;
    assert s == email + [','] + (master + rest);
    SplitFirstJoin(email, ',', master + rest);
    if rest == "" {
      assert master + rest == master;
      SplitNoComma(master);
    } else {
      assert master + rest == master + [','] + rest[1..];
      SplitFirstJoin(master, ',', rest[1..]);
    }
  }

  lemma SplitNoComma(s: string)
    requires ',' !in s
    ensures Split(s, ',') == [s]
  {
  }

  /** A looked-up contact with at least one comma always splits, and the
      split is the one above. */
  lemma RoomContactSplits(emailMap: map<Json, Json>, roomInfo: Json, room: Json, email: string, master: string, rest: string)
    requires roomInfo.JObj? && Get(roomInfo.fields, "room") == Some(room) && room in emailMap
    requires Hashable(room)
    requires ',' !in email && ',' !in master && (rest == "" || rest[0] == ',')
    requires emailMap[room] == JStr(email + "," + master + rest)
    ensures RoomContact(emailMap, roomInfo) == Ok((email, master))
  {
    var s := email + "," + master + rest;
    ContactRoundTrip(email, master, rest);
    var parts := Split(s, ',');
    assert |parts| >= 2 && parts[0] == email && parts[1] == master;
  }

  /** A contact without a comma cannot be unpacked into two names. */
  lemma RoomContactNoComma(emailMap: map<Json, Json>, roomInfo: Json, room: Json, s: string)
    requires roomInfo.JObj? && Get(roomInfo.fields, "room") == Some(room) && room in emailMap
    requires Hashable(room) && emailMap[room] == JStr(s) && ',' !in s
    ensures RoomContact(emailMap, roomInfo) == Err(ValueError)
  {
    SplitNoComma(s);
  }
}
