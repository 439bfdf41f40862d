/** The word guard's bookkeeping: the per-group, per-user violation records
    with their counting window and ban threshold, the mute-expiry table,
    and the settings both use. Both tables are nested dictionaries keyed by
    `str(group_id)` and then `str(user_id)`. */
module Violations {
  import opened Wrappers
  import opened Strings

  /** One recalled message as kept in a record's history. */
  datatype Offense = Offense(time: int, text: string, messageId: int)

  /** A user's violations within the current window. */
  datatype Record = Record(count: nat, firstTime: int, lastTime: int, messages: seq<Offense>)

  /** The plugin settings. The numeric ones only ever receive `int()` of a
      digit string or their defaults, so they are non-negative. */
  datatype Config = Config(warningCooldown: nat, violationWindow: nat, maxViolations: nat,
                           banDuration: nat, checkImages: bool)

  /** The settings in force before any are changed. */
  const DefaultConfig := Config(20, 60, 10, 600, false)

  /** The most characters of a message a record keeps. */
  const TextKept := 100

  /** A two-level dictionary: group key, then user key. */
  type Table<V> = map<string, map<string, V>>

  function Lookup<V>(t: Table<V>, g: string, u: string): Option<V> {
    if g in t && u in t[g] then Some(t[g][u]) else None
  }

  /** No group maps to an empty dictionary. */
  ghost predicate NoEmptyGroup<V>(t: Table<V>) {
    forall g :: g in t ==> t[g] != map[]
  }

  /** Store `v` under (g, u), creating the group's dictionary if absent. */
  function Put<V>(t: Table<V>, g: string, u: string, v: V): (r: Table<V>)
    ensures Lookup(r, g, u) == Some(v)
    ensures r.Keys == t.Keys + {g}
    ensures NoEmptyGroup(t) ==> NoEmptyGroup(r)
  {
    var inner := if g in t then t[g] else map[];
    t[g := inner[u := v]]
  }

  /** Delete the entry under (g, u) and then the group's dictionary if it is
      left empty; nothing happens when the entry is absent. */
  function Delete<V>(t: Table<V>, g: string, u: string): (r: Table<V>)
    ensures Lookup(r, g, u) == None
    ensures Lookup(t, g, u) == None ==> r == t
    ensures Lookup(t, g, u) != None ==> (g in r <==> t[g].Keys != {u})
    ensures r.Keys <= t.Keys
    ensures NoEmptyGroup(t) ==> NoEmptyGroup(r)
  {
    if g in t && u in t[g] then
      var inner := t[g] - {u};
      assert inner.Keys == t[g].Keys - {u};
      if inner == map[] then
        assert t[g].Keys == {u} by {
          forall w | w in t[g] ensures w == u {
            assert w !in inner;
          }
        }
        t - {g}
      else t[g := inner]
    else t
  }

  /** Storing under one key changes no other entry. */
  lemma PutElsewhere<V>(t: Table<V>, g: string, u: string, v: V, h: string, w: string)
    requires (h, w) != (g, u)
    ensures Lookup(Put(t, g, u, v), h, w) == Lookup(t, h, w)
  {
  }

  /** Deleting under one key changes no other entry. */
  lemma DeleteElsewhere<V>(t: Table<V>, g: string, u: string, h: string, w: string)
    requires (h, w) != (g, u)
    ensures Lookup(Delete(t, g, u), h, w) == Lookup(t, h, w)
  {
  }

  /** Storing an entry and deleting it again leaves the table as deleting
      alone would have, provided no group was empty to begin with. */
  lemma DeleteAfterPut<V>(t: Table<V>, g: string, u: string, v: V)
    requires NoEmptyGroup(t)
    ensures Delete(Put(t, g, u, v), g, u) == Delete(t, g, u)
  {
    var a := Delete(Put(t, g, u, v), g, u);
    var b := Delete(t, g, u);
    assert a.Keys == b.Keys by {
      if g in t {
        assert t[g] != map[];
        if u in t[g] {
          assert Put(t, g, u, v)[g].Keys == t[g].Keys;
        } else {
          var w :| w in t[g];
          assert w != u && w in Put(t, g, u, v)[g];
        }
      }
    }
    forall h | h in a.Keys ensures a[h] == b[h] {
      forall w ensures (w in a[h]) == (w in b[h]) && (w in a[h] ==> a[h][w] == b[h][w]) {
        if (h, w) != (g, u) {
          DeleteElsewhere(Put(t, g, u, v), g, u, h, w);
          PutElsewhere(t, g, u, v, h, w);
          DeleteElsewhere(t, g, u, h, w);
        }
        assert Lookup(a, h, w) == Lookup(b, h, w);
      }
    }
  }

  // -----------------------------------------------------------------------
  // The record of one user

  /** `s[-m:]` for a non-negative m: the last m entries, where m = 0 keeps
      every entry because `-0` is the start of the list. */
  function KeepLast<T>(s: seq<T>, m: nat): (r: seq<T>)
    ensures |r| == if m == 0 || |s| <= m then |s| else m
    ensures forall k :: 0 <= k < |r| ==> r[k] == s[|s| - |r| + k]
  {
    if m == 0 || |s| <= m then s else s[|s| - m..]
  }

  /** The stored record is missing, or its window has closed: counting
      starts over. The closing test is strict. */
  predicate Restarts(prev: Option<Record>, now: int, window: nat) {
    prev.None? || now - prev.value.firstTime > window
  }

  /** `update_violation_record`: the record after one more offence at `now`,
      where `prev` is the stored record if there is one. */
  function Bumped(prev: Option<Record>, now: int, text: string, messageId: int, config: Config): (r: Record)
    ensures r.count == if Restarts(prev, now, config.violationWindow) then 1 else prev.value.count + 1
    ensures r.firstTime == if Restarts(prev, now, config.violationWindow) then now else prev.value.firstTime
    ensures r.lastTime == now && now - r.firstTime <= config.violationWindow
  {
    var base := if Restarts(prev, now, config.violationWindow) then Record(0, now, now, []) else prev.value;
    var history := base.messages + [Offense(now, Take(text, TextKept), messageId)];
    Record(base.count + 1, base.firstTime, now, KeepLast(history, config.maxViolations))
  }

  /** The history after an update: the kept history (none after a restart)
      with the new offence, and its first `100` characters, appended, cut to
      the last `max_violations` entries when there are more. */
  lemma BumpedHistory(prev: Option<Record>, now: int, text: string, messageId: int, config: Config)
    ensures var r := Bumped(prev, now, text, messageId, config);
            var kept := if Restarts(prev, now, config.violationWindow) then [] else prev.value.messages;
            var history := kept + [Offense(now, Take(text, TextKept), messageId)];
            && r.messages != [] && r.messages[|r.messages| - 1] == Offense(now, Take(text, TextKept), messageId)
            && (config.maxViolations == 0 || |r.messages| <= config.maxViolations)
            && (config.maxViolations == 0 || |history| <= config.maxViolations ==> r.messages == history)
            && r.messages == history[|history| - |r.messages|..]
  {
    var r := Bumped(prev, now, text, messageId, config);
    var kept := if Restarts(prev, now, config.violationWindow) then [] else prev.value.messages;
    var history := kept + [Offense(now, Take(text, TextKept), messageId)];
    assert r.messages == KeepLast(history, config.maxViolations);
    KeepLastSnoc(kept, Offense(now, Take(text, TextKept), messageId), config.maxViolations);
  }

  /** Cutting a history that ends in `x`: what is kept ends in `x`, fits
      the limit, is the whole history when that fits, and is its end. */
  lemma KeepLastSnoc<T>(h: seq<T>, x: T, m: nat)
    ensures var r := KeepLast(h + [x], m);
            && r != [] && r[|r| - 1] == x
            && (m == 0 || |r| <= m)
            && (m == 0 || |h| + 1 <= m ==> r == h + [x])
            && r == (h + [x])[|h| + 1 - |r|..]
  {
    var s := h + [x];
    var r := KeepLast(s, m);
    if m == 0 || |s| <= m {
      assert s[0..] == s;
    } else {
      assert r == s[|s| - m..];
    }
  }

  /** `check_should_ban`: a stored record that reached the maximum while
      its window is still open. */
  predicate ShouldBan(rec: Option<Record>, now: int, config: Config) {
    rec.Some? && rec.value.count >= config.maxViolations && now - rec.value.firstTime <= config.violationWindow
  }

  /** Asked at the instant of the update, the ban question depends on the
      returned count alone: an update never leaves a closed window behind. */
  lemma BanRightAfterBump(prev: Option<Record>, now: int, text: string, messageId: int, config: Config)
    ensures ShouldBan(Some(Bumped(prev, now, text, messageId, config)), now, config)
            <==> Bumped(prev, now, text, messageId, config).count >= config.maxViolations
  {
  }

  /** A record never holds more history entries than offences it counts. */
  lemma HistoryWithinCount(prev: Option<Record>, now: int, text: string, messageId: int, config: Config)
    requires prev.Some? ==> |prev.value.messages| <= prev.value.count
    ensures |Bumped(prev, now, text, messageId, config).messages| <= Bumped(prev, now, text, messageId, config).count
  {
    BumpedHistory(prev, now, text, messageId, config);
  }

  /** The record after a sequence of offences, oldest first. */
  function BumpAll(prev: Option<Record>, offences: seq<Offense>, config: Config): (r: Option<Record>)
    ensures offences != [] ==> r.Some? && r.value.lastTime == offences[|offences| - 1].time
    decreases |offences|
  {
    if offences == [] then prev
    else
      var o := offences[|offences| - 1];
      Some(Bumped(BumpAll(prev, offences[..|offences| - 1], config), o.time, o.text, o.messageId, config))
  }

  /** Offences that all fall within the window opened by the first of them
      are all counted, starting from no record. */
  lemma {:induction false} CountsOffencesInWindow(offences: seq<Offense>, config: Config)
    requires offences != []
    requires forall i :: 0 <= i < |offences| ==> offences[i].time - offences[0].time <= config.violationWindow
    ensures BumpAll(None, offences, config).value.count == |offences|
    ensures BumpAll(None, offences, config).value.firstTime == offences[0].time
    decreases |offences|
  {
    var init := offences[..|offences| - 1];
    if init != [] {
      assert forall i :: 0 <= i < |init| ==> init[i] == offences[i];
      CountsOffencesInWindow(init, config);
    }
  }

  /** Reaching the maximum number of offences inside one window earns a ban
      at the time of the last of them. */
  lemma BanAfterMaxOffences(offences: seq<Offense>, config: Config)
    requires offences != [] && |offences| >= config.maxViolations
    requires forall i :: 0 <= i < |offences| ==> offences[i].time - offences[0].time <= config.violationWindow
    ensures ShouldBan(BumpAll(None, offences, config), offences[|offences| - 1].time, config)
  {
    CountsOffencesInWindow(offences, config);
  }

  /** An offence after the window closed starts a new count of one, however
      many offences came before. */
  lemma RestartAfterWindow(prev: Record, now: int, text: string, messageId: int, config: Config)
    requires now - prev.firstTime > config.violationWindow
    ensures Bumped(Some(prev), now, text, messageId, config).count == 1
    ensures !ShouldBan(Some(Bumped(Some(prev), now, text, messageId, config)), now, config) || config.maxViolations <= 1
  {
  }

  // -----------------------------------------------------------------------
  // The mute-expiry table

  /** The user's mute has not yet expired at `now`. */
  predicate CoolingDown(t: Table<int>, g: string, u: string, now: int) {
    Lookup(t, g, u).Some? && now < Lookup(t, g, u).value
  }

  /** The lazy purge: an entry whose time has come is deleted (with its
      group, if that empties it); a live entry or no entry stays as is. */
  function Purge(t: Table<int>, g: string, u: string, now: int): (r: Table<int>)
    ensures CoolingDown(t, g, u, now) ==> r == t
    ensures !CoolingDown(t, g, u, now) ==> Lookup(r, g, u) == None
  {
    if CoolingDown(t, g, u, now) then t else Delete(t, g, u)
  }
}
