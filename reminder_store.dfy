/** The reminder list kept by App.tsx: adding (then sorting by due time), toggling and
    deleting reminders, choosing which reminders get a notification timer, what a firing
    timer does, and the per-user defaults on load. */
module ReminderStore {
  import opened Wrappers
  import opened Calendar
  import opened ReminderTypes
  import SchoolSchedule

  // ---------------------------------------------------------------------------------
  // Due times and the sort
  // ---------------------------------------------------------------------------------

  /** `new Date(r.dateTime).getTime()` as local milliseconds; None where JS gets NaN. */
  function Due(r: Reminder): Option<int> {
    match ParseDateTime(r.dateTime)
    case Some(t) => Some(Millis(t))
    case None => None
  }

  /** The comparator `key(a) - key(b)` is negative: `a` comes strictly before `b`. A NaN
      difference (a missing key) counts as 0, as `Array.prototype.sort` reads it. */
  predicate KeyBefore<T>(key: T -> Option<int>, a: T, b: T) {
    key(a).Some? && key(b).Some? && key(a).value < key(b).value
  }

  /** Every element has a key, in ascending order. */
  predicate SortedBy<T>(key: T -> Option<int>, s: seq<T>) {
    && (forall i :: 0 <= i < |s| ==> key(s[i]).Some?)
    && (forall i, j :: 0 <= i < j < |s| ==> key(s[i]).value <= key(s[j]).value)
  }

  /** Places `x` after the last element it does not come strictly before. */
  function InsertBy<T>(key: T -> Option<int>, s: seq<T>, x: T): seq<T> {
    if s == [] || !KeyBefore(key, x, s[|s| - 1]) then s + [x]
    else InsertBy(key, s[..|s| - 1], x) + [s[|s| - 1]]
  }

  /** `list.sort((a, b) => key(a) - key(b))` as a stable insertion sort. */
  function SortBy<T>(key: T -> Option<int>, s: seq<T>): seq<T> {
    if s == [] then [] else InsertBy(key, SortBy(key, s[..|s| - 1]), s[|s| - 1])
  }

  /** The elements of `s` whose key is exactly `k`, in their order in `s`. */
  function KeyedAt<T>(key: T -> Option<int>, s: seq<T>, k: int): seq<T> {
    if s == [] then []
    else KeyedAt(key, s[..|s| - 1], k) + (if key(s[|s| - 1]) == Some(k) then [s[|s| - 1]] else [])
  }

  lemma KeyedAtAppend<T>(key: T -> Option<int>, s: seq<T>, x: T, k: int)
    ensures KeyedAt(key, s + [x], k) == KeyedAt(key, s, k) + (if key(x) == Some(k) then [x] else [])
  {
    assert (s + [x])[..|s + [x]| - 1] == s;
  }

  lemma {:induction false} InsertPermutes<T>(key: T -> Option<int>, s: seq<T>, x: T)
    ensures multiset(InsertBy(key, s, x)) == multiset(s) + multiset{x}
  {
    if s != [] && KeyBefore(key, x, s[|s| - 1]) {
      InsertPermutes(key, s[..|s| - 1], x);
      assert s == s[..|s| - 1] + [s[|s| - 1]];
    }
  }

  /** The sort rearranges the list and neither adds nor loses an element. */
  lemma {:induction false} SortPermutes<T>(key: T -> Option<int>, s: seq<T>)
    ensures multiset(SortBy(key, s)) == multiset(s)
  {
    if s != [] {
      SortPermutes(key, s[..|s| - 1]);
      InsertPermutes(key, SortBy(key, s[..|s| - 1]), s[|s| - 1]);
      assert s == s[..|s| - 1] + [s[|s| - 1]];
    }
  }

  lemma {:induction false} InsertSorted<T>(key: T -> Option<int>, s: seq<T>, x: T)
    requires SortedBy(key, s) && key(x).Some?
    ensures SortedBy(key, InsertBy(key, s, x))
  {
    if s != [] && KeyBefore(key, x, s[|s| - 1]) {
      var init, last := s[..|s| - 1], s[|s| - 1];
      assert SortedBy(key, init);
      InsertSorted(key, init, x);
      var r := InsertBy(key, init, x);
      forall i | 0 <= i < |r|
        ensures key(r[i]).value <= key(last).value
      {
        InsertMember(key, init, x, r[i]);
        if r[i] != x {
          var j :| 0 <= j < |init| && init[j] == r[i];
          assert r[i] == s[j];
        }
      }
      assert InsertBy(key, s, x) == r + [last];
    }
  }

  /** Everything in the result of an insertion was in the list or is the inserted element. */
  lemma InsertMember<T>(key: T -> Option<int>, s: seq<T>, x: T, y: T)
    requires y in InsertBy(key, s, x)
    ensures y in s || y == x
  {
    InsertPermutes(key, s, x);
    assert y in multiset(InsertBy(key, s, x));
  }

  /** Once every element has a key, the sorted list is in ascending key order. */
  lemma {:induction false} SortSorts<T>(key: T -> Option<int>, s: seq<T>)
    requires forall i :: 0 <= i < |s| ==> key(s[i]).Some?
    ensures SortedBy(key, SortBy(key, s))
  {
    if s != [] {
      SortSorts(key, s[..|s| - 1]);
      InsertSorted(key, SortBy(key, s[..|s| - 1]), s[|s| - 1]);
    }
  }

  lemma {:induction false} InsertStable<T>(key: T -> Option<int>, s: seq<T>, x: T, k: int)
    ensures KeyedAt(key, InsertBy(key, s, x), k) == KeyedAt(key, s, k) + (if key(x) == Some(k) then [x] else [])
  {
    if s == [] || !KeyBefore(key, x, s[|s| - 1]) {
      KeyedAtAppend(key, s, x, k);
    } else {
      var init, last := s[..|s| - 1], s[|s| - 1];
      InsertStable(key, init, x, k);
      KeyedAtAppend(key, InsertBy(key, init, x), last, k);
      KeyedAtAppend(key, init, last, k);
      assert s == init + [last];
    }
  }

  /** The sort is stable: the elements with the same key keep their relative order,
      whatever else the list holds. */
  lemma {:induction false} SortStable<T>(key: T -> Option<int>, s: seq<T>, k: int)
    ensures KeyedAt(key, SortBy(key, s), k) == KeyedAt(key, s, k)
  {
    if s != [] {
      SortStable(key, s[..|s| - 1], k);
      InsertStable(key, SortBy(key, s[..|s| - 1]), s[|s| - 1], k);
    }
  }

  lemma {:induction false} KeyedAtMembers<T>(key: T -> Option<int>, s: seq<T>, k: int, x: T)
    ensures x in KeyedAt(key, s, k) <==> x in s && key(x) == Some(k)
  {
    if s != [] {
      KeyedAtMembers(key, s[..|s| - 1], k, x);
      assert s == s[..|s| - 1] + [s[|s| - 1]];
    }
  }

  /** Two lists in ascending key order that agree on the elements at every key are the
      same list. */
  lemma {:induction false} SortedUnique<T>(key: T -> Option<int>, a: seq<T>, b: seq<T>)
    requires SortedBy(key, a) && SortedBy(key, b)
    requires forall k :: KeyedAt(key, a, k) == KeyedAt(key, b, k)
    ensures a == b
    decreases |a| + |b|
  {
    if a == [] && b == [] {
      return;
    }
    if a == [] || b == [] {
      var c := if a == [] then b else a;
      var k := key(c[0]).value;
      KeyedAtMembers(key, c, k, c[0]);
      assert false;
    }
    var ia, ib := a[..|a| - 1], b[..|b| - 1];
    SortedLastsMatch(key, a, b, key(a[|a| - 1]).value);
    forall k
      ensures KeyedAt(key, ia, k) == KeyedAt(key, ib, k)
    {
      KeyedAtDropLast(key, a, b, k);
    }
    assert SortedBy(key, ia) && SortedBy(key, ib);
    SortedUnique(key, ia, ib);
    SameInitAndLast(a, b);
  }

  /** Dropping the same last element from two lists that agree at key `k` leaves lists
      that still agree there. */
  lemma KeyedAtDropLast<T>(key: T -> Option<int>, a: seq<T>, b: seq<T>, k: int)
    requires a != [] && b != [] && a[|a| - 1] == b[|b| - 1]
    requires KeyedAt(key, a, k) == KeyedAt(key, b, k)
    ensures KeyedAt(key, a[..|a| - 1], k) == KeyedAt(key, b[..|b| - 1], k)
  {
    var x := a[|a| - 1];
    var tail := if key(x) == Some(k) then [x] else [];
    assert KeyedAt(key, a, k) == KeyedAt(key, a[..|a| - 1], k) + tail;
    assert KeyedAt(key, b, k) == KeyedAt(key, b[..|b| - 1], k) + tail;
    AppendCancel(KeyedAt(key, a[..|a| - 1], k), KeyedAt(key, b[..|b| - 1], k), tail);
  }

  lemma AppendCancel<T>(p: seq<T>, q: seq<T>, t: seq<T>)
    requires p + t == q + t
    ensures p == q
  {
    assert |p| == |q|;
    forall i | 0 <= i < |p|
      ensures p[i] == q[i]
    {
      assert p[i] == (p + t)[i] && q[i] == (q + t)[i];
    }
  }

  lemma InitLast<T>(s: seq<T>)
    requires s != []
    ensures s[..|s| - 1] + [s[|s| - 1]] == s
  {
  }

  lemma SameInitAndLast<T>(a: seq<T>, b: seq<T>)
    requires a != [] && b != [] && a[..|a| - 1] == b[..|b| - 1] && a[|a| - 1] == b[|b| - 1]
    ensures a == b
  {
    assert |a| == |b|;
    forall i | 0 <= i < |a|
      ensures a[i] == b[i]
    {
      if i < |a| - 1 {
        assert a[i] == a[..|a| - 1][i];
      }
    }
  }

  /** In a list in ascending key order, the last element has the largest key. */
  lemma SortedLastIsMax<T>(key: T -> Option<int>, s: seq<T>, x: T)
    requires SortedBy(key, s) && x in s
    ensures key(x).value <= key(s[|s| - 1]).value
  {
    var i :| 0 <= i < |s| && s[i] == x;
    if i < |s| - 1 {
      assert key(s[i]).value <= key(s[|s| - 1]).value;
    }
  }

  /** Two non-empty lists in ascending key order that agree on the elements at every key
      end with the same element. */
  lemma SortedLastsMatch<T>(key: T -> Option<int>, a: seq<T>, b: seq<T>, k0: int)
    requires SortedBy(key, a) && SortedBy(key, b) && a != [] && b != []
    requires forall k :: KeyedAt(key, a, k) == KeyedAt(key, b, k)
    requires key(a[|a| - 1]) == Some(k0)
    ensures a[|a| - 1] == b[|b| - 1]
  {
    var la, lb := a[|a| - 1], b[|b| - 1];
    var kb := key(lb).value;
    KeyedAtMembers(key, a, k0, la);
    KeyedAtMembers(key, b, k0, la);
    SortedLastIsMax(key, b, la);
    KeyedAtMembers(key, b, kb, lb);
    KeyedAtMembers(key, a, kb, lb);
    SortedLastIsMax(key, a, lb);
    assert k0 == kb;
    var ka := KeyedAt(key, a, k0);
    assert ka == KeyedAt(key, b, k0);
    assert ka[|ka| - 1] == la;
  }

  /** When every element has a key, `SortBy` is the only stable sort: any list in
      ascending key order that keeps the relative order of equal-keyed elements is it. */
  lemma SortIsTheStableSort<T>(key: T -> Option<int>, s: seq<T>, r: seq<T>)
    requires forall i :: 0 <= i < |s| ==> key(s[i]).Some?
    requires SortedBy(key, r)
    requires forall k :: KeyedAt(key, r, k) == KeyedAt(key, s, k)
    ensures r == SortBy(key, s)
  {
    SortSorts(key, s);
    forall k
      ensures KeyedAt(key, r, k) == KeyedAt(key, SortBy(key, s), k)
    {
      SortStable(key, s, k);
    }
    SortedUnique(key, r, SortBy(key, s));
  }

  /** A list already in key order is left as it is. */
  lemma {:induction false} SortKeepsSorted<T>(key: T -> Option<int>, s: seq<T>)
    requires SortedBy(key, s)
    ensures SortBy(key, s) == s
  {
    if s != [] {
      var init, last := s[..|s| - 1], s[|s| - 1];
      assert SortedBy(key, init);
      SortKeepsSorted(key, init);
      if init != [] {
        assert init[|init| - 1] == s[|s| - 2];
        assert !KeyBefore(key, last, init[|init| - 1]);
      }
      assert SortBy(key, s) == init + [last];
      InitLast(s);
    }
  }

  // ---------------------------------------------------------------------------------
  // Add, toggle, delete
  // ---------------------------------------------------------------------------------

  /** `{ ...reminder, id: Date.now(), completed: false }`, with the clock as `now`. */
  function NewReminder(draft: Draft, now: int): Reminder {
    Reminder(now, draft.text, draft.dateTime, draft.sound, draft.vibration, false, draft.groupId)
  }

  /** `handleAddReminder`: the previous list plus the new reminder, sorted by due time. */
  function AddReminder(list: seq<Reminder>, draft: Draft, now: int): seq<Reminder> {
    SortBy(Due, list + [NewReminder(draft, now)])
  }

  /** Adding grows the list by exactly the new, not completed reminder with id `now`; the
      result is in due order when every due time parses, equally-due reminders keep their
      order with the new one last among them, and adding to a sorted list is inserting. */
  lemma AddReminderFacts(list: seq<Reminder>, draft: Draft, now: int)
    ensures var r := AddReminder(list, draft, now);
      && |r| == |list| + 1
      && multiset(r) == multiset(list) + multiset{NewReminder(draft, now)}
      && NewReminder(draft, now) in r
      && ((forall i :: 0 <= i < |list| ==> Due(list[i]).Some?) && Due(NewReminder(draft, now)).Some? ==>
            SortedBy(Due, r))
      && (forall k :: KeyedAt(Due, r, k) == KeyedAt(Due, list, k) +
            (if Due(NewReminder(draft, now)) == Some(k) then [NewReminder(draft, now)] else []))
      && (SortedBy(Due, list) ==> r == InsertBy(Due, list, NewReminder(draft, now)))
  {
    var x := NewReminder(draft, now);
    var s := list + [x];
    var r := SortBy(Due, s);
    SortPermutes(Due, s);
    assert |multiset(r)| == |s|;
    assert x in multiset(r);
    if (forall i :: 0 <= i < |list| ==> Due(list[i]).Some?) && Due(x).Some? {
      SortSorts(Due, s);
    }
    forall k
      ensures KeyedAt(Due, r, k) == KeyedAt(Due, list, k) + (if Due(x) == Some(k) then [x] else [])
    {
      SortStable(Due, s, k);
      KeyedAtAppend(Due, list, x, k);
    }
    if SortedBy(Due, list) {
      assert s[..|s| - 1] == list;
      SortKeepsSorted(Due, list);
    }
  }

  /** The new record of `handleToggleReminder` for one reminder. */
  function ToggleOne(r: Reminder, id: int): Reminder {
    if r.id == id then r.(completed := !r.completed) else r
  }

  /** `handleToggleReminder`: `list.map(r => r.id === id ? { ...r, completed: !r.completed } : r)`. */
  function Toggle(list: seq<Reminder>, id: int): seq<Reminder> {
    seq(|list|, i requires 0 <= i < |list| => ToggleOne(list[i], id))
  }

  /** Toggling flips `completed` on exactly the reminders with that id and changes nothing
      else: not the other fields, not the other reminders, not the order. So an unknown id
      is a no-op, toggling twice is the identity, and a list in due order stays so. */
  lemma ToggleFacts(list: seq<Reminder>, id: int)
    ensures |Toggle(list, id)| == |list|
    ensures forall i :: 0 <= i < |list| ==>
      && Toggle(list, id)[i].completed == (list[i].completed != (list[i].id == id))
      && Toggle(list, id)[i].(completed := list[i].completed) == list[i]
    ensures (forall i :: 0 <= i < |list| ==> list[i].id != id) ==> Toggle(list, id) == list
    ensures Toggle(Toggle(list, id), id) == list
    ensures SortedBy(Due, list) ==> SortedBy(Due, Toggle(list, id))
  {
    var t := Toggle(list, id);
    assert forall i :: 0 <= i < |list| ==> Due(t[i]) == Due(list[i]);
  }

  /** `handleDeleteReminder`: `list.filter(r => r.id !== id)`. */
  function Delete(list: seq<Reminder>, id: int): seq<Reminder> {
    if list == [] then []
    else Delete(list[..|list| - 1], id) + (if list[|list| - 1].id != id then [list[|list| - 1]] else [])
  }

  /** The positions of `list` that `Delete` keeps, in order. */
  function Kept(list: seq<Reminder>, id: int): seq<int> {
    if list == [] then []
    else Kept(list[..|list| - 1], id) + (if list[|list| - 1].id != id then [|list| - 1] else [])
  }

  /** Deleting keeps exactly the reminders whose id differs, in their original order: the
      result is `list` read at the increasing positions `Kept(list, id)`, and those are all
      the positions whose id differs. */
  lemma {:induction false} DeleteKeepsOrder(list: seq<Reminder>, id: int)
    ensures var r, idx := Delete(list, id), Kept(list, id);
      && |idx| == |r|
      && (forall k :: 0 <= k < |idx| ==> 0 <= idx[k] < |list| && r[k] == list[idx[k]])
      && (forall k, l :: 0 <= k < l < |idx| ==> idx[k] < idx[l])
      && (forall i :: 0 <= i < |list| ==> (i in idx <==> list[i].id != id))
  {
    if list != [] {
      var init, x := list[..|list| - 1], list[|list| - 1];
      DeleteKeepsOrder(init, id);
      var r0, idx0 := Delete(init, id), Kept(init, id);
      assert forall i :: 0 <= i < |init| ==> list[i] == init[i];
      if x.id != id {
        assert Delete(list, id) == r0 + [x] && Kept(list, id) == idx0 + [|init|];
      } else {
        assert Delete(list, id) == r0 && Kept(list, id) == idx0;
      }
    }
  }

  /** Deleting removes every reminder with the id and keeps every other one. */
  lemma DeleteMembers(list: seq<Reminder>, id: int, r: Reminder)
    ensures r in Delete(list, id) <==> r in list && r.id != id
  {
    DeleteKeepsOrder(list, id);
    var idx := Kept(list, id);
    if r in list && r.id != id {
      var i :| 0 <= i < |list| && list[i] == r;
      var k :| 0 <= k < |idx| && idx[k] == i;
    }
  }

  /** Deleting from a list in due order leaves it in due order, and deleting an id no
      reminder has changes nothing. */
  lemma DeleteSorted(list: seq<Reminder>, id: int)
    ensures SortedBy(Due, list) ==> SortedBy(Due, Delete(list, id))
    ensures (forall i :: 0 <= i < |list| ==> list[i].id != id) ==> Delete(list, id) == list
  {
    DeleteKeepsOrder(list, id);
    var r, idx := Delete(list, id), Kept(list, id);
    if forall i :: 0 <= i < |list| ==> list[i].id != id {
      DeleteAbsent(list, id);
    }
  }

  lemma {:induction false} DeleteAbsent(list: seq<Reminder>, id: int)
    requires forall i :: 0 <= i < |list| ==> list[i].id != id
    ensures Delete(list, id) == list
  {
    if list != [] {
      DeleteAbsent(list[..|list| - 1], id);
    }
  }

  // ---------------------------------------------------------------------------------
  // Notification timers
  // ---------------------------------------------------------------------------------

  /** A pending `setTimeout` for a reminder, meant to fire `delay` milliseconds after it
      was armed. The browser honours delays up to `MaxTimerDelay` only; see `EffectiveDelay`
      and `WakeUps` below. */
  datatype Timer = Timer(reminder: Reminder, delay: int)

  /** A reminder gets a timer when it is not completed and is due strictly after `now`. */
  predicate Armed(r: Reminder, now: int) {
    !r.completed && Due(r).Some? && Due(r).value - now > 0
  }

  /** The timer map after arming `rs` in order; a later reminder with an id already armed
      replaces the earlier entry. */
  function ArmedTimers(rs: seq<Reminder>, now: int): map<int, Timer> {
    if rs == [] then map[]
    else
      var m := ArmedTimers(rs[..|rs| - 1], now);
      var r := rs[|rs| - 1];
      if Armed(r, now) then m[r.id := Timer(r, Due(r).value - now)] else m
  }

  /** The position of the last armed reminder with id `id`, or -1 when there is none. */
  function LastArmed(rs: seq<Reminder>, now: int, id: int): (j: int)
    ensures -1 <= j < |rs|
    ensures j >= 0 ==> Armed(rs[j], now) && rs[j].id == id
  {
    if rs == [] then -1
    else if Armed(rs[|rs| - 1], now) && rs[|rs| - 1].id == id then |rs| - 1
    else LastArmed(rs[..|rs| - 1], now, id)
  }

  /** No reminder after the one `LastArmed` finds is armed with the id; so it is -1
      exactly when no reminder with the id is armed. */
  lemma {:induction false} LastArmedIs(rs: seq<Reminder>, now: int, id: int)
    ensures forall i :: LastArmed(rs, now, id) < i < |rs| ==> !(Armed(rs[i], now) && rs[i].id == id)
  {
    if rs != [] && !(Armed(rs[|rs| - 1], now) && rs[|rs| - 1].id == id) {
      var init := rs[..|rs| - 1];
      LastArmedIs(init, now, id);
      assert forall i :: 0 <= i < |init| ==> rs[i] == init[i];
    }
  }

  /** Exactly the ids of armed reminders have a timer, and each timer belongs to the last
      armed reminder with its id and waits until that reminder is due. */
  lemma {:induction false} ArmedTimersLast(rs: seq<Reminder>, now: int, id: int)
    ensures var j := LastArmed(rs, now, id);
      && (id in ArmedTimers(rs, now) <==> j >= 0)
      && (j >= 0 ==> ArmedTimers(rs, now)[id] == Timer(rs[j], Due(rs[j]).value - now))
  {
    if rs != [] {
      var init := rs[..|rs| - 1];
      ArmedTimersLast(init, now, id);
      if LastArmed(init, now, id) >= 0 {
        assert init[LastArmed(init, now, id)] == rs[LastArmed(init, now, id)];
      }
    }
  }

  /** Which ids get a timer, in terms of the list alone: those of reminders that are not
      completed and due after `now`; the entry is the last such reminder with the id. */
  lemma ArmedTimersChoice(rs: seq<Reminder>, now: int, id: int)
    ensures id in ArmedTimers(rs, now) <==> exists i :: 0 <= i < |rs| && Armed(rs[i], now) && rs[i].id == id
    ensures id in ArmedTimers(rs, now) ==>
      exists i :: 0 <= i < |rs| && Armed(rs[i], now) && rs[i].id == id &&
        ArmedTimers(rs, now)[id] == Timer(rs[i], Due(rs[i]).value - now) &&
        forall l :: i < l < |rs| ==> !(Armed(rs[l], now) && rs[l].id == id)
  {
    ArmedTimersLast(rs, now, id);
    LastArmedIs(rs, now, id);
  }

  /** What a firing timer does. */
  datatype Notice = Notice(title: string, body: string, vibrate: Option<seq<int>>)
  datatype FireEffect = FireEffect(sound: Option<string>, notice: Option<Notice>)

  /** The timer callback: nothing without notification permission; otherwise the sound
      file of the reminder's sound key is played when the table has a non-empty entry for
      it, and a notification titled `تذكير!` shows the reminder's text, with the vibration
      pattern of its vibration key. */
  function Fire(r: Reminder, permission: string, sounds: map<string, string>,
                vibrations: map<string, seq<int>>): (e: FireEffect)
    ensures permission != "granted" ==> e == FireEffect(None, None)
    ensures permission == "granted" ==>
      && e.notice == Some(Notice("تذكير!", r.text,
           if r.vibration in vibrations then Some(vibrations[r.vibration]) else None))
      && (e.sound.Some? <==> r.sound in sounds && sounds[r.sound] != "")
      && (e.sound.Some? ==> e.sound.value == sounds[r.sound])
  {
    if permission != "granted" then FireEffect(None, None)
    else
      var sound := if r.sound in sounds && sounds[r.sound] != "" then Some(sounds[r.sound]) else None;
      var vibrate := if r.vibration in vibrations then Some(vibrations[r.vibration]) else None;
      FireEffect(sound, Some(Notice("تذكير!", r.text, vibrate)))
  }

  // ---------------------------------------------------------------------------------
  // The application state
  // ---------------------------------------------------------------------------------

  datatype Theme = Sky | Emerald | Rose

  /** The parsed `data_<username>` entry; a missing or falsy field is None. */
  datatype StoredData = StoredData(reminders: Option<seq<Reminder>>,
                                   schedules: Option<seq<SchoolSchedule.ChildSchedule>>,
                                   theme: Option<Theme>)

  /** The state App keeps: the signed-in user, their reminders, timetables and theme, and
      the pending notification timers by reminder id. */
  // ---------------------------------------------------------------------------------
  // The wait a browser timer actually gives
  // ---------------------------------------------------------------------------------

  /** The largest delay `setTimeout` honours: its delay is a Web IDL `long`, a signed
      32-bit integer. */
  const MaxTimerDelay: int := 0x7FFF_FFFF

  /** The Web IDL conversion to `long`: the integer taken modulo 2^32 into the signed
      32-bit range. */
  function ToLong(x: int): (r: int)
    ensures -0x8000_0000 <= r <= MaxTimerDelay
    ensures (x - r) % 0x1_0000_0000 == 0
  {
    var m := x % 0x1_0000_0000;
    if m > MaxTimerDelay then m - 0x1_0000_0000 else m
  }

  /** The wait `setTimeout(f, delay)` gives as written: the `long` conversion, with a
      negative result waiting nothing, as HTML's timer initialisation steps say. */
  function EffectiveDelay(delay: int): (r: int)
    ensures 0 <= r <= MaxTimerDelay
    ensures 0 <= delay <= MaxTimerDelay ==> r == delay
    ensures MaxTimerDelay < delay < 0x1_0000_0000 ==> r == 0
  {
    var t := ToLong(delay);
    if t < 0 then 0 else t
  }

  /** Past the 32-bit limit a timer fires early, and from 2^31 to 2^32 - 1 milliseconds
      (about 24.8 to 49.7 days) at once. */
  lemma FarTimerFiresEarly(delay: int)
    requires delay > MaxTimerDelay
    ensures EffectiveDelay(delay) < delay
    ensures delay < 0x1_0000_0000 ==> EffectiveDelay(delay) == 0
  {
  }

  /** A reminder due thirty days after `now` is armed with a delay of 2 592 000 000 ms,
      which the browser turns into no wait at all: it notifies at once. */
  lemma MonthAheadNotifiesAtOnce(r: Reminder, now: int)
    requires !r.completed && r.dateTime == FormatDateTime(DateTime(Date(2024, 1, 31), 9, 0))
    requires now == Millis(DateTime(Date(2024, 1, 1), 9, 0))
    ensures ArmedTimers([r], now) == map[r.id := Timer(r, 30 * MillisPerDay)]
    ensures 30 * MillisPerDay > MaxTimerDelay && EffectiveDelay(30 * MillisPerDay) == 0
  {
    FormatParseRoundTrip(DateTime(Date(2024, 1, 31), 9, 0));
    assert Due(r) == Some(now + 30 * MillisPerDay);
    assert [r][..0] == [];
  }

  /** The waits of a timer re-armed each time it wakes: as long as `delay` is past the
      limit, wait the limit and arm again with the rest. */
  function WakeUps(delay: int): (w: seq<int>)
    requires delay > 0
    decreases delay
  {
    if delay <= MaxTimerDelay then [delay] else [MaxTimerDelay] + WakeUps(delay - MaxTimerDelay)
  }

  /** The total a browser waits for a sequence of timers armed one after another. */
  function Waited(w: seq<int>): int {
    if w == [] then 0 else EffectiveDelay(w[0]) + Waited(w[1..])
  }

  /** Re-arming honours every delay: each wait is within the limit, so the browser keeps
      it, and together they wait exactly `delay`. */
  lemma {:induction false} WakeUpsOnTime(delay: int)
    requires delay > 0
    ensures forall i :: 0 <= i < |WakeUps(delay)| ==> 0 < WakeUps(delay)[i] <= MaxTimerDelay
    ensures Waited(WakeUps(delay)) == delay
    decreases delay
  {
    if delay > MaxTimerDelay {
      var rest := WakeUps(delay - MaxTimerDelay);
      WakeUpsOnTime(delay - MaxTimerDelay);
      assert WakeUps(delay) == [MaxTimerDelay] + rest;
      assert ([MaxTimerDelay] + rest)[1..] == rest;
    }
  }

  class ReminderApp {
    var currentUser: Option<string>
    var reminders: seq<Reminder>
    var schedules: seq<SchoolSchedule.ChildSchedule>
    var theme: Theme
    var timers: map<int, Timer>

    constructor()
      ensures currentUser == None && reminders == [] && schedules == [] && theme == Sky
      ensures timers == map[]
    {
      currentUser := None;
      reminders := [];
      schedules := [];
      theme := Sky;
      timers := map[];
    }

    /** The load effect for the current user: a signed-in user gets the stored lists and
        theme, `[]`, `[]` and Sky standing in for whatever is missing; without a user the
        lists are emptied and the theme is kept. */
    method LoadUserData(stored: Option<StoredData>)
      modifies this
      ensures currentUser == old(currentUser) && timers == old(timers)
      ensures currentUser.None? ==> reminders == [] && schedules == [] && theme == old(theme)
      ensures currentUser.Some? && stored.None? ==> reminders == [] && schedules == [] && theme == Sky
      ensures currentUser.Some? && stored.Some? ==>
        && reminders == (if stored.value.reminders.Some? then stored.value.reminders.value else [])
        && schedules == (if stored.value.schedules.Some? then stored.value.schedules.value else [])
        && theme == (if stored.value.theme.Some? then stored.value.theme.value else Sky)
    {
      if currentUser.Some? {
        if stored.Some? {
          var data := stored.value;
          reminders := if data.reminders.Some? then data.reminders.value else [];
          schedules := if data.schedules.Some? then data.schedules.value else [];
          theme := if data.theme.Some? then data.theme.value else Sky;
        } else {
          reminders := [];
          schedules := [];
          theme := Sky;
        }
      } else {
        reminders := [];
        schedules := [];
      }
    }

    /** The scheduling effect: every pending timer is cleared, then the reminders are armed
        one by one. */
    method Reschedule(now: int)
      modifies this
      ensures timers == ArmedTimers(reminders, now)
      ensures currentUser == old(currentUser) && reminders == old(reminders)
      ensures schedules == old(schedules) && theme == old(theme)
    {
      timers := map[];
      var rs := reminders;
      for i := 0 to |rs|
        invariant timers == ArmedTimers(rs[..i], now)
        invariant reminders == rs && currentUser == old(currentUser)
        invariant schedules == old(schedules) && theme == old(theme)
      {
        var r := rs[i];
        assert rs[..i + 1][..i] == rs[..i];
        if !r.completed {
          var due := Due(r);
          if due.Some? {
            var delay := due.value - now;
            if delay > 0 {
              timers := timers[r.id := Timer(r, delay)];
            }
          }
        }
      }
      assert rs[..|rs|] == rs;
    }

    /** `handleAddReminder`, followed by the scheduling effect the change triggers. */
    method HandleAddReminder(draft: Draft, now: int)
      modifies this
      ensures reminders == AddReminder(old(reminders), draft, now)
      ensures timers == ArmedTimers(reminders, now)
      ensures currentUser == old(currentUser) && schedules == old(schedules) && theme == old(theme)
    {
      reminders := AddReminder(reminders, draft, now);
      Reschedule(now);
    }

    /** `handleToggleReminder`, followed by the scheduling effect. */
    method HandleToggleReminder(id: int, now: int)
      modifies this
      ensures reminders == Toggle(old(reminders), id)
      ensures timers == ArmedTimers(reminders, now)
      ensures currentUser == old(currentUser) && schedules == old(schedules) && theme == old(theme)
    {
      reminders := Toggle(reminders, id);
      Reschedule(now);
    }

    /** `handleDeleteReminder`, followed by the scheduling effect. */
    method HandleDeleteReminder(id: int, now: int)
      modifies this
      ensures reminders == Delete(old(reminders), id)
      ensures timers == ArmedTimers(reminders, now)
      ensures currentUser == old(currentUser) && schedules == old(schedules) && theme == old(theme)
    {
      reminders := Delete(reminders, id);
      Reschedule(now);
    }

    /** `handleLoginSuccess` then the load effect, given what storage holds for the user;
        the reminders it sets re-run the scheduling effect. */
    method HandleLoginSuccess(username: string, stored: Option<StoredData>, now: int)
      modifies this
      ensures currentUser == Some(username)
      ensures stored.None? ==> reminders == [] && schedules == [] && theme == Sky
      ensures stored.Some? ==>
        && reminders == (if stored.value.reminders.Some? then stored.value.reminders.value else [])
        && schedules == (if stored.value.schedules.Some? then stored.value.schedules.value else [])
        && theme == (if stored.value.theme.Some? then stored.value.theme.value else Sky)
      ensures timers == ArmedTimers(reminders, now)
    {
      currentUser := Some(username);
      LoadUserData(stored);
      Reschedule(now);
    }

    /** `handleLogout` then the load effect: the lists are emptied and the theme is kept;
        the emptied list re-runs the scheduling effect, which clears every timer. */
    method HandleLogout(now: int)
      modifies this
      ensures currentUser == None && reminders == [] && schedules == []
      ensures theme == old(theme) && timers == map[]
    {
      currentUser := None;
      LoadUserData(None);
      Reschedule(now);
    }
  }
}
