/** The word guard as the plugin holds it: the module-level state of
    GuardianWords (enabled groups, local words and their automaton, the
    whitelist, the violation records, the mute times and the settings) as
    the fields of one object, and `on_message` with the helpers it calls as
    methods that update those fields step by step. Each method is tied to
    the decision functions of `Guardian`, where its guarantees are proved. */
module GuardPlugin {
  import opened Wrappers
  import opened Strings
  import opened AhoCorasick
  import opened MatchSpec
  import opened Violations
  import opened Guardian

  /** Reading a list file (the word file or the whitelist file): every line
      stripped, blank lines and lines starting with '#' skipped. */
  method ReadList(lines: seq<string>) returns (items: set<string>)
    ensures items == LoadedWords(lines)
  {
    items := {};
    var i := 0;
    while i < |lines|
      invariant i <= |lines|
      invariant items == LoadedWords(lines[..i])
    {
      LoadedWordsSnoc(lines[..i], lines[i]);
      assert lines[..i + 1] == lines[..i] + [lines[i]];
      var item := Strip(lines[i]);
      if item != [] && !StartsWith(item, "#") {
        items := items + {item};
      }
      i := i + 1;
    }
    assert lines[..|lines|] == lines;
  }

  /** One more line adds its stripped text when that is kept. */
  lemma LoadedWordsSnoc(lines: seq<string>, l: string)
    ensures LoadedWords(lines + [l]) == LoadedWords(lines) + (if KeptEntry(l) then {Strip(l)} else {})
  {
    var a, b := LoadedWords(lines + [l]), LoadedWords(lines);
    forall w | w in a ensures w in b || w == Strip(l) {
      var m :| m in lines + [l] && KeptEntry(m) && w == Strip(m);
      if m != l {
        assert m in lines;
      }
    }
    forall w | w in b ensures w in a {
      var m :| m in lines && KeptEntry(m) && w == Strip(m);
      assert m in lines + [l];
    }
    if KeptEntry(l) {
      assert l in lines + [l];
    }
  }

  class Guard {
    /** The administrators: root, super and manage users, as id strings. */
    const admins: set<string>
    /** The command prefix. */
    const reminder: string

    var enabledGroups: map<string, bool>
    var localWords: set<string>
    var whitelist: set<string>
    var records: Table<Record>
    var cooldowns: Table<int>
    var config: Config
    var automaton: Automaton

    /** The state the decision functions speak about. */
    ghost function State(): Store
      reads this
    {
      Store(enabledGroups, localWords, whitelist, records, cooldowns, config)
    }

    /** The automaton holds exactly the lower-cased local words; it is
        freshly built, or never built while there are no local words. */
    ghost predicate Valid()
      reads this`automaton, this`localWords, automaton
    {
      && automaton.Valid() && Words(automaton.nodes) == LowerAll(localWords)
      && (automaton.isBuilt ==> automaton.Canonical())
      && (!automaton.isBuilt ==> localWords == {})
    }

    /** What `check_local_sensitive_words` finds in `text`. */
    ghost function LocalMatches(text: string): set<string>
      reads this`automaton, this`localWords, automaton
      requires Valid()
    {
      if text == [] || automaton.wordCount == 0 || !automaton.isBuilt then {}
      else ScanFrom(automaton.nodes, automaton.paths, Lower(text), 0)
    }

    /** The local check reports exactly what the reference scan reports for
        the lower-cased local words over the lower-cased text. */
    lemma LocalMatchesExact(text: string)
      requires Valid()
      ensures LocalMatches(text) == Reported(LowerAll(localWords), Lower(text))
    {
      var a := automaton;
      if text == [] {
        assert Lower(text) == [];
      } else if a.wordCount == 0 || !a.isBuilt {
        assert Words(a.nodes) == {};
        NothingWithoutWords(Prefixes(Words(a.nodes)), [], Lower(text));
      } else {
        ScanExact(a.nodes, a.paths, a.parents, Lower(text), 0);
        PathsArePrefixes(a.nodes, a.paths, a.parents);
      }
    }

    /** `load_all_data`: the stored files arrive as their contents. A
        missing word file leaves no words and an automaton never built;
        mute times are not persisted and start empty. */
    constructor (admins: set<string>, reminder: string, wordLines: Option<seq<string>>,
                 whitelistLines: seq<string>, enabledGroups: map<string, bool>,
                 records: Table<Record>, config: Config)
      ensures Valid()
      ensures this.admins == admins && this.reminder == reminder
      ensures localWords == (if wordLines.Some? then LoadedWords(wordLines.value) else {})
      ensures whitelist == LoadedWords(whitelistLines)
      ensures this.enabledGroups == enabledGroups && this.records == records
      ensures this.config == config && cooldowns == map[]
    {
      this.admins := admins;
      this.reminder := reminder;
      this.enabledGroups := enabledGroups;
      this.records := records;
      this.config := config;
      cooldowns := map[];
      var a: Automaton;
      var words: set<string> := {};
      if wordLines.Some? {
        words := ReadList(wordLines.value);
        a := Refresh(words);
      } else {
        a := new Automaton();
      }
      localWords := words;
      automaton := a;
      var listed := ReadList(whitelistLines);
      whitelist := listed;
      new;
    }

    /** `check_local_sensitive_words`: the lower-cased text is searched;
        every word found is a local word, lower-cased, in the lower-cased
        text. */
    method CheckLocal(text: string) returns (matched: set<string>)
      requires Valid()
      ensures matched == LocalMatches(text)
      ensures matched == Reported(LowerAll(localWords), Lower(text))
      ensures forall w :: w in matched ==> w in LowerAll(localWords) && Contains(Lower(text), w)
    {
      LocalMatchesExact(text);
      if text == [] {
        return {};
      }
      var lowered := Lower(text);
      matched := automaton.Search(lowered);
    }

    /** `update_violation_record`: the record is created when missing,
        restarted when its window has closed, and then counts the offence. */
    method UpdateRecord(group: nat, user: nat, text: string, messageId: int, now: int) returns (count: nat)
      modifies this`records
      ensures var rec := Bumped(Lookup(old(records), NatToString(group), NatToString(user)), now, text, messageId, config);
              records == Put(old(records), NatToString(group), NatToString(user), rec) && count == rec.count
    {
      var g, u := NatToString(group), NatToString(user);
      ghost var prev := Lookup(records, g, u);
      var rec := match Lookup(records, g, u) case Some(r) => r case None => Record(0, now, now, []);
      if now - rec.firstTime > config.violationWindow {
        rec := rec.(count := 0, firstTime := now, messages := []);
      }
      ghost var base := if Restarts(prev, now, config.violationWindow) then Record(0, now, now, []) else prev.value;
      assert rec.count == base.count && rec.firstTime == base.firstTime && rec.messages == base.messages;
      rec := rec.(count := rec.count + 1, lastTime := now,
                  messages := rec.messages + [Offense(now, Take(text, TextKept), messageId)]);
      if |rec.messages| > config.maxViolations {
        rec := rec.(messages := KeepLast(rec.messages, config.maxViolations));
      }
      assert rec == Bumped(prev, now, text, messageId, config);
      records := Put(records, g, u, rec);
      count := rec.count;
    }

    /** `reset_violation_record`. */
    method ResetRecord(group: nat, user: nat)
      modifies this`records
      ensures records == Delete(old(records), NatToString(group), NatToString(user))
    {
      records := Delete(records, NatToString(group), NatToString(user));
    }

    /** `ban_user`: the mute request's success is an input; only a
        successful request records when the mute runs out. */
    method BanUser(group: nat, user: nat, now: int, muteOk: bool) returns (ok: bool)
      modifies this`cooldowns
      ensures ok == muteOk
      ensures cooldowns == if muteOk then Put(old(cooldowns), NatToString(group), NatToString(user), now + config.banDuration)
                           else old(cooldowns)
    {
      if muteOk {
        cooldowns := Put(cooldowns, NatToString(group), NatToString(user), now + config.banDuration);
      }
      ok := muteOk;
    }

    /** The command branches of `on_message`; a change to the words
        rebuilds the automaton. */
    method RunCommand(cmd: Command, group: nat) returns (reply: Reply)
      requires Valid() && !cmd.SetIncomplete?
      modifies this
      ensures Valid()
      ensures (State(), reply) == Execute(old(State()), cmd, group)
    {
      var g := NatToString(group);
      match cmd
      case Usage =>
        reply := UsageHelp;
      case Enable =>
        reply := Toggle(cmd, group);
      case Disable =>
        reply := Toggle(cmd, group);
      case Status =>
        reply := StatusReport(g in enabledGroups, |localWords|, |whitelist|);
      case AddWord(_) =>
        reply := EditWords(cmd, group);
      case RemoveWord(_) =>
        reply := EditWords(cmd, group);
      case AddWhitelist(_) =>
        reply := EditWhitelist(cmd, group);
      case RemoveWhitelist(_) =>
        reply := EditWhitelist(cmd, group);
      case ResetUser(u) =>
        if !IsDigits(u) {
          reply := InvalidQQ;
        } else {
          ResetRecord(group, DigitsValue(u));
          reply := RecordReset(u);
        }
      case ViewRecord(u) =>
        if !IsDigits(u) {
          reply := InvalidQQ;
        } else if g in records && u in records[g] {
          var r := records[g][u];
          reply := RecordShown(u, r.count, r.firstTime, r.lastTime, KeepLast(r.messages, 5));
        } else {
          reply := NoRecord(u);
        }
      case Set(p, v) =>
        reply := Configure(p, v, group);
      case Unknown =>
        reply := UnknownCommand;
    }

    /** The enable and disable commands. */
    method Toggle(cmd: Command, group: nat) returns (reply: Reply)
      requires cmd.Enable? || cmd.Disable?
      modifies this`enabledGroups
      ensures (State(), reply) == Execute(old(State()), cmd, group)
    {
      var g := NatToString(group);
      if cmd.Enable? {
        enabledGroups := enabledGroups[g := true];
        reply := Enabled;
      } else {
        if g in enabledGroups {
          enabledGroups := enabledGroups - {g};
        } else {
          assert enabledGroups - {g} == enabledGroups;
        }
        reply := Disabled;
      }
    }

    /** The add-word and remove-word commands; a change rebuilds the
        automaton from the new local words. */
    method EditWords(cmd: Command, group: nat) returns (reply: Reply)
      requires Valid() && (cmd.AddWord? || cmd.RemoveWord?)
      modifies this`localWords, this`automaton
      ensures Valid()
      ensures (State(), reply) == Execute(old(State()), cmd, group)
    {
      var w := cmd.word;
      if w == [] {
        reply := NoWordGiven;
      } else if cmd.AddWord? {
        if w in localWords {
          reply := WordPresent(w);
        } else {
          localWords := localWords + {w};
          automaton := Refresh(localWords);
          reply := WordAdded(w);
        }
      } else {
        if w !in localWords {
          reply := WordAbsent(w);
        } else {
          localWords := localWords - {w};
          automaton := Refresh(localWords);
          reply := WordRemoved(w);
        }
      }
    }

    /** The whitelist commands: only a string of digits is accepted. */
    method EditWhitelist(cmd: Command, group: nat) returns (reply: Reply)
      requires cmd.AddWhitelist? || cmd.RemoveWhitelist?
      modifies this`whitelist
      ensures (State(), reply) == Execute(old(State()), cmd, group)
    {
      var u := cmd.user;
      if !IsDigits(u) {
        reply := InvalidQQ;
      } else if cmd.AddWhitelist? {
        if u in whitelist {
          reply := AlreadyWhitelisted(u);
        } else {
          whitelist := whitelist + {u};
          reply := Whitelisted(u);
        }
      } else {
        if u !in whitelist {
          reply := NotWhitelisted(u);
        } else {
          whitelist := whitelist - {u};
          reply := Unwhitelisted(u);
        }
      }
    }

    /** The set command: a known setting with a value of digits. */
    method Configure(p: string, v: string, group: nat) returns (reply: Reply)
      modifies this`config
      ensures (State(), reply) == Execute(old(State()), Set(p, v), group)
    {
      if p == "窗口时间" && IsDigits(v) {
        config := config.(violationWindow := DigitsValue(v));
        reply := WindowSet(v);
      } else if p == "最大违规" && IsDigits(v) {
        config := config.(maxViolations := DigitsValue(v));
        reply := MaxSet(v);
      } else if p == "禁言时长" && IsDigits(v) {
        config := config.(banDuration := DigitsValue(v));
        reply := SetFailed;
      } else {
        reply := InvalidSetting;
      }
    }

    /** The moderation part of `on_message`, for a message that is not a
        command; `clean` is its extracted text. */
    method Moderate(ev: Event, clean: string, now: int, api: ApiReply, deletion: DeleteOutcome, muteOk: bool)
      returns (handled: bool, effects: seq<Effect>)
      requires Valid()
      modifies this`cooldowns, this`records
      ensures Valid()
      ensures Outcome(State(), handled, effects)
              == Enforce(old(State()), admins, ev, clean, old(LocalMatches(clean)), now, api, DeleteSucceeded(deletion), muteOk)
    {
      var g, u := NatToString(ev.groupId), NatToString(ev.userId);
      ghost var s0, local0 := State(), LocalMatches(clean);
      if g !in enabledGroups || u in admins || u in whitelist {
        return false, [];
      }
      if g in cooldowns && u in cooldowns[g] {
        if now < cooldowns[g][u] {
          assert CoolingDown(s0.cooldowns, g, u, now);
          return false, [];
        }
        cooldowns := Delete(cooldowns, g, u);
      }
      assert !CoolingDown(s0.cooldowns, g, u, now) && cooldowns == Purge(s0.cooldowns, g, u, now);
      assert Valid() && LocalMatches(clean) == local0;
      ghost var s1 := State();
      assert s1 == s0.(cooldowns := Purge(s0.cooldowns, g, u, now));
      var local := CheckLocal(clean);
      var words := local + ApiWords(api);
      if words == {} {
        assert Enforce(s0, admins, ev, clean, local0, now, api, DeleteSucceeded(deletion), muteOk) == Outcome(s1, false, []);
        return false, [];
      }
      assert Enforce(s0, admins, ev, clean, local0, now, api, DeleteSucceeded(deletion), muteOk)
             == Penalize(s1, ev, clean, words, now, DeleteSucceeded(deletion), muteOk);
      effects := Punish(ev, clean, words, now, deletion, muteOk);
      handled := true;
    }

    /** The `try` block of `on_message`: recall the message, and once it
        is gone count it and go on to the sanction. */
    method Punish(ev: Event, clean: string, words: set<string>, now: int, deletion: DeleteOutcome, muteOk: bool)
      returns (effects: seq<Effect>)
      requires Valid()
      modifies this`cooldowns, this`records
      ensures Valid()
      ensures Outcome(State(), true, effects) == Penalize(old(State()), ev, clean, words, now, DeleteSucceeded(deletion), muteOk)
    {
      if !DeleteSucceeded(deletion) {
        return [Recall(ev.messageId)];
      }
      var count := UpdateRecord(ev.groupId, ev.userId, clean, ev.messageId, now);
      effects := Discipline(ev, count, words, now, muteOk);
    }

    /** Warn, and mute when `check_should_ban` says so; reset the record
        after a successful mute. */
    method Discipline(ev: Event, count: nat, words: set<string>, now: int, muteOk: bool) returns (effects: seq<Effect>)
      modifies this`cooldowns, this`records
      ensures Outcome(State(), true, effects) == Sanction(old(State()), ev, count, words, now, muteOk)
    {
      var g, u := NatToString(ev.groupId), NatToString(ev.userId);
      effects := [Recall(ev.messageId), Send(Warning(ev.userId, count, words))];
      if ShouldBan(Lookup(records, g, u), now, config) {
        var ok := BanUser(ev.groupId, ev.userId, now, muteOk);
        effects := effects + [Mute(ev.userId, config.banDuration)];
        if ok {
          effects := effects + [Send(BanNotice(ev.userId))];
          ResetRecord(ev.groupId, ev.userId);
        }
      }
    }

    /** `on_message`: group messages only, never the bot's own, only ones
        with text left after removing codes; commands first, and the rest
        goes to moderation. */
    method OnMessage(ev: Event, now: int, api: ApiReply, deletion: DeleteOutcome, muteOk: bool)
      returns (handled: bool, effects: seq<Effect>)
      requires Valid()
      modifies this
      ensures Valid()
      ensures Outcome(State(), handled, effects)
              == Step(old(State()), admins, reminder, ev, old(LocalMatches(ExtractText(ev.message))),
                      now, api, deletion, muteOk)
    {
      if !ev.isGroupMessage || ev.userId == ev.selfId {
        return false, [];
      }
      var clean := ExtractText(ev.message);
      if clean == [] {
        return false, [];
      }
      if IsCommand(clean, reminder) {
        if NatToString(ev.userId) !in admins {
          return true, [Send(AdminOnly)];
        }
        var cmd := CommandOf(clean, reminder);
        if !cmd.SetIncomplete? {
          var reply := RunCommand(cmd, ev.groupId);
          return true, [Send(reply)];
        }
      }
      handled, effects := Moderate(ev, clean, now, api, deletion, muteOk);
    }
  }
}
