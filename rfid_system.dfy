/** The record store of the attendance system (class `RFIDSystem`,
    RFIDSystem.h and RFIDSystem.cpp): registered users, the day's scan logs
    and the IN/OUT status of each id, with the operations that change them
    and the read-only views built from them. The host clock, the file
    system and the console are not modelled: the scan time and the
    formatted times are parameters, a file is a byte sequence (None when it
    cannot be opened), and views return their data instead of printing it. */
module RfidSystem {
  import opened Records
  import Codec
  import Json
  import Sorting

  /** `m[k]` on a `std::map` read for its value: the stored value, or the
      value-initialised default when the key is absent. */
  function MapGet<V>(m: map<string, V>, k: string, absent: V): V
  {
    if k in m then m[k] else absent
  }

  /** The position of the first user with id `id`, if any. */
  function FirstWithId(users: seq<User>, id: string): (r: Option<nat>)
    ensures r.Some? ==> r.value < |users| && users[r.value].id == id &&
                        forall j | 0 <= j < r.value :: users[j].id != id
    ensures r.None? ==> forall j | 0 <= j < |users| :: users[j].id != id
  {
    FirstWithIdFrom(users, id, 0)
  }

  function FirstWithIdFrom(users: seq<User>, id: string, from: nat): (r: Option<nat>)
    requires from <= |users|
    ensures r.Some? ==> from <= r.value < |users| && users[r.value].id == id &&
                        forall j | from <= j < r.value :: users[j].id != id
    ensures r.None? ==> forall j | from <= j < |users| :: users[j].id != id
    decreases |users| - from
  {
    if from == |users| then None
    else if users[from].id == id then Some(from)
    else FirstWithIdFrom(users, id, from + 1)
  }

  /** A C++ `int` receiving a `size_t`: the value modulo 2^32, read as two's
      complement. */
  function ToInt32(n: nat): (r: int)
    ensures -0x8000_0000 <= r < 0x8000_0000
    ensures n < 0x8000_0000 ==> r == n
  {
    var m := n % 0x1_0000_0000;
    if m < 0x8000_0000 then m else m - 0x1_0000_0000
  }

  /** One line of the daily report: a user, their number of scans in the
      current log, and their last action ("NONE" when there is none). */
  datatype ReportRow = ReportRow(user: User, scans: nat, lastAction: string)

  /** What the report prints for a user's last action: an empty entry
      (no log, or a log whose action is empty) shows as "NONE". */
  function ShownAction(action: string): string
  {
    if action == "" then "NONE" else action
  }

  class RFIDSystem {
    var users: seq<User>
    var dailyLogs: seq<ScanLog>
    var userStatus: map<string, string>

    /** Every registered id has a status entry, every status is "IN" or
        "OUT", and what the C++ types guarantee holds: ids, names and logs
        are byte strings of `size_t` length, timestamps fit a 64-bit
        `time_t`, so the logs can always be saved. */
    ghost predicate Valid()
      reads this
    {
      && (forall i | 0 <= i < |users| ::
            && users[i].id in userStatus
            && Codec.EncodableString(users[i].id)
            && Codec.EncodableString(users[i].name))
      && (forall id | id in userStatus :: userStatus[id] == "IN" || userStatus[id] == "OUT")
      && Codec.Encodable(dailyLogs)
    }

    /** Starts empty, then loads the log file (`storedLogs`, None when it
        cannot be opened). */
    constructor (storedLogs: Option<seq<Codec.byte>>)
      ensures Valid()
      ensures users == [] && userStatus == map[]
      ensures storedLogs.None? ==> dailyLogs == []
      ensures storedLogs.Some? && Codec.Decode(storedLogs.value).Some? ==>
                dailyLogs == Codec.Decode(storedLogs.value).value
    {
      users := [];
      dailyLogs := [];
      userStatus := map[];
      new;
      var loaded := LoadFromBinaryFile(storedLogs);
    }

    /** `addUser`: appends the user and sets its status to "OUT"; an id that
        is already registered is not rejected (a second user is appended and
        the shared status entry is reset to "OUT"). */
    method AddUser(id: string, name: string, role: string)
      requires Codec.EncodableString(id) && Codec.EncodableString(name)
      modifies this
      ensures users == old(users) + [User(id, name, role)]
      ensures userStatus == old(userStatus)[id := "OUT"]
      ensures dailyLogs == old(dailyLogs)
      ensures old(Valid()) ==> Valid()
    {
      users := users + [User(id, name, role)];
      userStatus := userStatus[id := "OUT"];
    }

    /** `findUser`: linear search for the first user with that id. The C++
        pointer into the vector is modelled by the user's position. */
    method FindUser(id: string) returns (r: Option<nat>)
      ensures r == FirstWithId(users, id)
    {
      var i := 0;
      while i < |users|
        invariant 0 <= i <= |users|
        invariant forall j | 0 <= j < i :: users[j].id != id
      {
        if users[i].id == id {
          return Some(i);
        }
        i := i + 1;
      }
      return None;
    }

    /** `scanRFID` at time `now`: an unknown id changes nothing and fails;
        otherwise the status toggles (a missing entry reads as "") and one
        log with the first matching user's name and the new status is
        appended. */
    method ScanRFID(userId: string, now: int) returns (ok: bool)
      requires Codec.InInt64(now) && |dailyLogs| + 1 < Codec.U64Limit
      modifies this
      ensures users == old(users)
      ensures ok <==> FirstWithId(users, userId).Some?
      ensures !ok ==> dailyLogs == old(dailyLogs) && userStatus == old(userStatus)
      ensures ok ==>
        var action := Toggle(MapGet(old(userStatus), userId, ""));
        && userStatus == old(userStatus)[userId := action]
        && dailyLogs == old(dailyLogs) +
             [ScanLog(userId, users[FirstWithId(users, userId).value].name, action, now)]
      ensures old(Valid()) ==> Valid()
    {
      var found := FindUser(userId);
      if found.None? {
        return false;
      }
      var user := users[found.value];
      var action := if MapGet(userStatus, userId, "") == "OUT" then "IN" else "OUT";
      userStatus := userStatus[userId := action];
      dailyLogs := dailyLogs + [ScanLog(userId, user.name, action, now)];
      return true;
    }

    /** `searchLogsByUserId`: the logs of one user, ordered by timestamp. */
    method SearchLogsByUserId(userId: string) returns (r: seq<ScanLog>)
      ensures SortedByTime(r)
      ensures multiset(r) == multiset(FilterById(dailyLogs, userId))
      ensures forall x :: x in r <==> x in dailyLogs && x.userId == userId
    {
      var found: seq<ScanLog> := [];
      for i := 0 to |dailyLogs|
        invariant found == FilterById(dailyLogs[..i], userId)
      {
        var log := dailyLogs[i];
        if log.userId == userId {
          found := found + [log];
        }
        assert dailyLogs[..i + 1] == dailyLogs[..i] + [log];
        FilterByIdSnoc(dailyLogs[..i], log, userId);
      }
      assert dailyLogs[..|dailyLogs|] == dailyLogs;
      var a := new ScanLog[|found|](k requires 0 <= k < |found| => found[k]);
      assert a[..] == found;
      Sorting.SortByTime(a);
      r := a[..];
      forall x
        ensures x in r <==> x in dailyLogs && x.userId == userId
      {
        assert x in r <==> x in multiset(r);
        FilterByIdMembers(dailyLogs, userId, x);
      }
    }

    /** `getSortedLogs`: a copy of the log ordered by timestamp; the order of
        logs with equal timestamps is unspecified. */
    method GetSortedLogs() returns (r: seq<ScanLog>)
      ensures SortedByTime(r)
      ensures multiset(r) == multiset(dailyLogs)
    {
      var logs := dailyLogs;
      var a := new ScanLog[|logs|](k requires 0 <= k < |logs| => logs[k]);
      assert a[..] == logs;
      Sorting.SortByTime(a);
      r := a[..];
    }

    /** `saveToBinaryFile`: the bytes written, which read back as the same
        log sequence, or None (the `false` result) when the file cannot be
        opened (`canOpen` is false). */
    method SaveToBinaryFile(canOpen: bool) returns (written: Option<seq<Codec.byte>>)
      requires Valid()
      ensures written.None? <==> !canOpen
      ensures written.Some? ==> written.value == Codec.Encode(dailyLogs)
      ensures written.Some? ==> Codec.Decode(written.value) == Some(dailyLogs)
    {
      if !canOpen {
        return None;
      }
      var logs := dailyLogs;
      var file := Codec.EncodeU64(|logs|);
      for i := 0 to |logs|
        invariant Codec.AllEncodable(logs[..i])
        invariant file == Codec.EncodeU64(|logs|) + Codec.EncodeLogs(logs[..i])
      {
        var log := logs[i];
        Codec.EncodeLogsStep(Codec.EncodeU64(|logs|), logs, i);
        file := file + Codec.EncodeString(log.userId) + Codec.EncodeString(log.userName) +
                Codec.EncodeString(log.action) + Codec.EncodeI64(log.timestamp);
      }
      assert logs[..|logs|] == logs;
      Codec.DecodeEncode(logs, []);
      assert file + [] == file;
      return Some(file);
    }

    /** `loadFromBinaryFile`: a file that cannot be opened (None) is not an
        error and leaves the log as it is; otherwise the log is replaced by
        the logs read. Only the logs are stored in the file, so users and
        statuses are untouched. What a truncated file leaves behind is not
        specified (the source reads past its end unchecked). */
    method LoadFromBinaryFile(file: Option<seq<Codec.byte>>) returns (ok: bool)
      modifies this
      ensures ok
      ensures users == old(users) && userStatus == old(userStatus)
      ensures file.None? ==> dailyLogs == old(dailyLogs)
      ensures file.Some? && Codec.Decode(file.value).Some? ==> dailyLogs == Codec.Decode(file.value).value
      ensures old(Valid()) ==> Valid()
    {
      if file.None? {
        return true;
      }
      dailyLogs := [];
      var header := Codec.ReadU64(file.value);
      if header.None? {
        return true;
      }
      var count, rest := header.value.0, header.value.1;
      Codec.ReadU64Bound(file.value);
      ghost var target := Codec.ReadLogs(rest, count);
      var cur := rest;
      var i: nat := 0;
      ghost var remaining: nat := count;
      Codec.ReadingStart(rest, count);
      while i < count
        invariant i <= count && remaining == count - i
        invariant users == old(users) && userStatus == old(userStatus)
        invariant Codec.Reading(target, dailyLogs, cur, remaining)
        invariant |dailyLogs| == i && Codec.AllEncodable(dailyLogs)
      {
        var next, left := Codec.ReadNext(target, dailyLogs, cur, remaining);
        if next.None? {
          return true;
        }
        Codec.ReadResultEncodable(cur, next);
        dailyLogs := dailyLogs + [next.value.0];
        cur := next.value.1;
        i := i + 1;
        remaining := left;
      }
      Codec.DecodeByLoop(file.value, dailyLogs, cur);
      return true;
    }

    /** `exportToJSON`: the text written, built from the logs in timestamp
        order, or None when the file cannot be opened (`canOpen` is false);
        `formatTime` stands for `getFormattedTime` (local time) and
        `exportTime` for the time of export. */
    method ExportToJson(canOpen: bool, formatTime: int -> string, exportTime: string) returns (written: Option<string>)
      ensures written.None? <==> !canOpen
      ensures written.Some? ==>
                exists sorted ::
                  && SortedByTime(sorted) && multiset(sorted) == multiset(dailyLogs)
                  && written.value == Json.JsonDocument(sorted, |dailyLogs|, formatTime, exportTime)
    {
      if !canOpen {
        return None;
      }
      var text := Json.Head;
      var sorted := GetSortedLogs();
      ghost var objects := Json.LogObjects(sorted, formatTime);
      for i := 0 to |sorted|
        invariant text == Json.Head + Json.ArrayPrefix(objects, i)
      {
        var log := sorted[i];
        var time := formatTime(log.timestamp);
        assert objects[i] == Json.LogObject(log, time);
        var userId := Json.EscapeJsonString(log.userId);
        var userName := Json.EscapeJsonString(log.userName);
        var action := Json.EscapeJsonString(log.action);
        var entry := "    {\n" +
          "      \"user_id\": \"" + userId + "\",\n" +
          "      \"user_name\": \"" + userName + "\",\n" +
          "      \"action\": \"" + action + "\",\n" +
          "      \"timestamp\": \"" + time + "\",\n" +
          "      \"unix_timestamp\": " + Json.IntToString(log.timestamp) + "\n" +
          "    }";
        assert entry == Json.LogObject(log, time);
        Json.ArrayPrefixStep(Json.Head, objects, i);
        var separator := if i < |sorted| - 1 then ",\n" else "\n";
        text := text + entry + separator;
      }
      Json.ArrayPrefixComplete(objects);
      text := text + Json.Tail(|dailyLogs|, exportTime);
      return Some(text);
    }

    /** The first pass of `displayDailyReport`: in one walk over the log,
        the number of logs of each id and the action of its last log (a
        missing entry reads as 0 and "" respectively). */
    method TallyLogs() returns (scanCount: map<string, nat>, lastAction: map<string, string>)
      ensures forall id :: MapGet(scanCount, id, 0) == |FilterById(dailyLogs, id)|
      ensures forall id :: MapGet(lastAction, id, "") == LastAction(dailyLogs, id)
    {
      scanCount, lastAction := map[], map[];
      for i := 0 to |dailyLogs|
        invariant forall id :: MapGet(scanCount, id, 0) == |FilterById(dailyLogs[..i], id)|
        invariant forall id :: MapGet(lastAction, id, "") == LastAction(dailyLogs[..i], id)
      {
        var log := dailyLogs[i];
        scanCount := scanCount[log.userId := MapGet(scanCount, log.userId, 0) + 1];
        lastAction := lastAction[log.userId := log.action];
        assert dailyLogs[..i + 1] == dailyLogs[..i] + [log];
        forall id
          ensures MapGet(scanCount, id, 0) == |FilterById(dailyLogs[..i + 1], id)|
          ensures MapGet(lastAction, id, "") == LastAction(dailyLogs[..i + 1], id)
        {
          FilterByIdSnoc(dailyLogs[..i], log, id);
          LastActionSnoc(dailyLogs[..i], log, id);
        }
      }
      assert dailyLogs[..|dailyLogs|] == dailyLogs;
    }

    /** The data of `displayDailyReport`: per user, in registration order,
        the number of logs with that id and the action of the last of them
        in log order (not timestamp order). */
    method DailyReport() returns (rows: seq<ReportRow>)
      ensures |rows| == |users|
      ensures forall k | 0 <= k < |users| ::
                && rows[k].user == users[k]
                && rows[k].scans == |FilterById(dailyLogs, users[k].id)|
                && rows[k].lastAction == ShownAction(LastAction(dailyLogs, users[k].id))
    {
      var scanCount, lastAction := TallyLogs();
      rows := [];
      for k := 0 to |users|
        invariant |rows| == k
        invariant forall j | 0 <= j < k ::
                    rows[j] == ReportRow(users[j], |FilterById(dailyLogs, users[j].id)|,
                                         ShownAction(LastAction(dailyLogs, users[j].id)))
      {
        var user := users[k];
        var scans := MapGet(scanCount, user.id, 0);
        var last := MapGet(lastAction, user.id, "");
        var action := if last == "" then "NONE" else last;
        rows := rows + [ReportRow(user, scans, action)];
      }
    }

    /** `clearDailyLogs`: empties the log and sets every existing status
        entry to "OUT"; users and the set of ids with a status are kept. */
    method ClearDailyLogs()
      modifies this
      ensures dailyLogs == [] && users == old(users)
      ensures userStatus.Keys == old(userStatus).Keys
      ensures forall id | id in userStatus :: userStatus[id] == "OUT"
      ensures old(Valid()) ==> Valid()
    {
      dailyLogs := [];
      var pending := userStatus.Keys;
      while pending != {}
        invariant pending <= userStatus.Keys
        invariant userStatus.Keys == old(userStatus).Keys
        invariant forall id | id in userStatus && id !in pending :: userStatus[id] == "OUT"
        invariant users == old(users) && dailyLogs == []
        invariant old(Valid()) ==> Valid()
        decreases |pending|
      {
        var id :| id in pending;
        userStatus := userStatus[id := "OUT"];
        pending := pending - {id};
      }
    }

    /** `getTotalScans`: the log length, as a C++ `int`. */
    function TotalScans(): (n: int)
      reads this
      ensures -0x8000_0000 <= n < 0x8000_0000
      ensures |dailyLogs| < 0x8000_0000 ==> n == |dailyLogs|
    {
      ToInt32(|dailyLogs|)
    }

    /** `getTotalUsers`: the number of users, as a C++ `int`. */
    function TotalUsers(): (n: int)
      reads this
      ensures -0x8000_0000 <= n < 0x8000_0000
      ensures |users| < 0x8000_0000 ==> n == |users|
    {
      ToInt32(|users|)
    }
  }

  /** Two successive scans of a registered user restore the user's status
      and append two logs, at the two scan times, whose actions are first
      the opposite status and then the original one. */
  method ScanTwice(system: RFIDSystem, userId: string, first: int, second: int)
    requires system.Valid() && FirstWithId(system.users, userId).Some?
    requires Codec.InInt64(first) && Codec.InInt64(second) && |system.dailyLogs| + 2 < Codec.U64Limit
    modifies system
    ensures system.Valid()
    ensures system.users == old(system.users) && system.userStatus == old(system.userStatus)
    ensures var name := system.users[FirstWithId(system.users, userId).value].name;
            var status := old(system.userStatus)[userId];
            && status != Toggle(status)
            && system.dailyLogs == old(system.dailyLogs) +
                 [ScanLog(userId, name, Toggle(status), first), ScanLog(userId, name, status, second)]
  {
    var ok := system.ScanRFID(userId, first);
    ok := system.ScanRFID(userId, second);
    ToggleTwice(old(system.userStatus)[userId]);
  }

  /** A store with one freshly registered user, whose status is "OUT". */
  method RegisterOne(user: User) returns (system: RFIDSystem)
    requires Codec.EncodableString(user.id) && Codec.EncodableString(user.name)
    ensures fresh(system) && system.Valid()
    ensures system.users == [user] && system.userStatus == map[user.id := "OUT"] && system.dailyLogs == []
  {
    system := new RFIDSystem(None);
    system.AddUser(user.id, user.name, user.role);
  }

  /** The walk-through of a fresh user: registered as "OUT", two scans
      append an "IN" and an "OUT" log, and the report shows two scans with
      "OUT" last. */
  method AttendanceScenario()
  {
    var ada := User("abc123", "Ada Lovelace", "student");
    var system := RegisterOne(ada);
    assert FirstWithId(system.users, ada.id) == Some(0);
    ScanTwice(system, ada.id, 1000, 1060);
    var logs := system.dailyLogs;
    assert logs == [ScanLog(ada.id, ada.name, "IN", 1000), ScanLog(ada.id, ada.name, "OUT", 1060)];
    var report := system.DailyReport();
    assert report[0].scans == 2 && report[0].lastAction == "OUT" by {
      FilterByIdSnoc([], logs[0], ada.id);
      FilterByIdSnoc([logs[0]], logs[1], ada.id);
      assert [logs[0]] + [logs[1]] == logs;
    }
  }
}
