/** The two record types of the attendance store (User.h, ScanLog.h) and the
    pure views over a log sequence that the store and its reports share. */
module Records {

  datatype Option<T> = None | Some(value: T)

  /** A registered person: id, display name and role ("student", "staff" or
      "faculty", not enforced here). */
  datatype User = User(id: string, name: string, role: string)

  /** One badge-scan event. The C++ three-argument constructor stores uid,
      uname and act verbatim and reads the host clock; here the clock reading
      is the fourth argument, `timestamp` (seconds since the epoch). */
  datatype ScanLog = ScanLog(userId: string, userName: string, action: string, timestamp: int)

  /** `ScanLog::operator<`: only the timestamps take part. */
  predicate Less(a: ScanLog, b: ScanLog)
  {
    a.timestamp < b.timestamp
  }

  /** `operator<` is a strict weak ordering: irreflexive, transitive, and
      "neither is less" (equal timestamps) is transitive too, whatever the
      ids, names or actions of the logs. */
  lemma LessIsStrictWeakOrder(a: ScanLog, b: ScanLog, c: ScanLog)
    ensures !Less(a, a)
    ensures Less(a, b) && Less(b, c) ==> Less(a, c)
    ensures Less(a, b) ==> !Less(b, a)
    ensures (!Less(a, b) && !Less(b, a)) <==> a.timestamp == b.timestamp
    ensures (!Less(a, b) && !Less(b, a) && !Less(b, c) && !Less(c, b)) ==> !Less(a, c) && !Less(c, a)
  {
  }

  /** What `std::sort` with `operator<` promises of its output: no element is
      less than one before it. */
  predicate SortedByTime(s: seq<ScanLog>)
  {
    SortedPrefix(s, |s|)
  }

  /** The first `n` logs of `s` are in timestamp order. */
  predicate SortedPrefix(s: seq<ScanLog>, n: int)
    requires 0 <= n <= |s|
  {
    forall i, j | 0 <= i < j < n :: s[i].timestamp <= s[j].timestamp
  }

  lemma SortedMeansNoInversion(s: seq<ScanLog>, i: int, j: int)
    requires SortedByTime(s)
    requires 0 <= i < j < |s|
    ensures !Less(s[j], s[i])
  {
  }

  /** The logs of `s` whose userId is `id`, in their order in `s`. */
  function FilterById(s: seq<ScanLog>, id: string): seq<ScanLog>
  {
    if s == [] then []
    else FilterById(s[..|s| - 1], id) + (if s[|s| - 1].userId == id then [s[|s| - 1]] else [])
  }

  /** Membership in the filtered sequence is exactly "in s with that id". */
  lemma {:induction false} FilterByIdMembers(s: seq<ScanLog>, id: string, x: ScanLog)
    ensures x in FilterById(s, id) <==> x in s && x.userId == id
  {
    if s != [] {
      FilterByIdMembers(s[..|s| - 1], id, x);
      assert s == s[..|s| - 1] + [s[|s| - 1]];
    }
  }

  /** The filter keeps each matching log with its multiplicity and drops
      every other one. */
  lemma {:induction false} FilterByIdMultiset(s: seq<ScanLog>, id: string, x: ScanLog)
    ensures multiset(FilterById(s, id))[x] == if x.userId == id then multiset(s)[x] else 0
  {
    if s != [] {
      FilterByIdMultiset(s[..|s| - 1], id, x);
      assert s == s[..|s| - 1] + [s[|s| - 1]];
    }
  }

  /** Filtering a sequence extended by one log. */
  lemma FilterByIdSnoc(s: seq<ScanLog>, x: ScanLog, id: string)
    ensures FilterById(s + [x], id) == FilterById(s, id) + (if x.userId == id then [x] else [])
  {
    assert (s + [x])[..|s + [x]| - 1] == s;
  }

  /** The action of the last log (in sequence order) of user `id`, or the
      empty string when there is none: what `lastAction[id]` holds after the
      report's pass over the logs. */
  function LastAction(s: seq<ScanLog>, id: string): string
  {
    var f := FilterById(s, id);
    if f == [] then "" else f[|f| - 1].action
  }

  /** LastAction is the action of a log of that user, and no later log in
      `s` belongs to the same user. */
  lemma {:induction false} LastActionIsLatest(s: seq<ScanLog>, id: string)
    ensures LastAction(s, id) == "" <== (forall k | 0 <= k < |s| :: s[k].userId != id)
    ensures (exists k | 0 <= k < |s| :: s[k].userId == id) ==>
              exists k | 0 <= k < |s| ::
                s[k].userId == id && LastAction(s, id) == s[k].action &&
                forall m | k < m < |s| :: s[m].userId != id
  {
    if s != [] {
      var init, last := s[..|s| - 1], s[|s| - 1];
      assert s == init + [last];
      LastActionIsLatest(init, id);
      if last.userId != id {
        if exists k | 0 <= k < |s| :: s[k].userId == id {
          var k :| 0 <= k < |s| && s[k].userId == id;
          assert init[k].userId == id;
          var k' :| 0 <= k' < |init| && init[k'].userId == id && LastAction(init, id) == init[k'].action &&
                    forall m | k' < m < |init| :: init[m].userId != id;
          assert s[k'].userId == id && LastAction(s, id) == s[k'].action;
        }
      } else {
        assert s[|s| - 1].userId == id && LastAction(s, id) == s[|s| - 1].action;
      }
    }
  }

  /** A log appended for `id` becomes its last action; one for another user
      leaves it as it was. */
  lemma LastActionSnoc(s: seq<ScanLog>, x: ScanLog, id: string)
    ensures LastAction(s + [x], id) == if x.userId == id then x.action else LastAction(s, id)
  {
    FilterByIdSnoc(s, x, id);
  }

  /** The status a scan moves to: "IN" exactly when the old status is "OUT". */
  function Toggle(status: string): (r: string)
    ensures r == "IN" || r == "OUT"
    ensures r == "IN" <==> status == "OUT"
  {
    if status == "OUT" then "IN" else "OUT"
  }

  /** Two toggles restore a status that was "IN" or "OUT"; any other status
      (such as a missing entry, read as "") ends at "IN". */
  lemma ToggleTwice(status: string)
    ensures Toggle(Toggle(status)) == (if status == "IN" || status == "OUT" then status else "IN")
  {
  }

  /** The status after `n` scans starting from `status`. */
  function ToggleTimes(status: string, n: nat): string
  {
    if n == 0 then status else Toggle(ToggleTimes(status, n - 1))
  }

  /** From "OUT", an odd number of scans leaves "IN", an even number "OUT". */
  lemma {:induction false} ToggleParity(n: nat)
    ensures ToggleTimes("OUT", n) == if n % 2 == 1 then "IN" else "OUT"
  {
    if n > 0 {
      ToggleParity(n - 1);
    }
  }
}
