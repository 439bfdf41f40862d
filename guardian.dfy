/** The word guard's message handler: how a group message becomes either an
    administrator command or a candidate for moderation, and what moderation
    then does (recall, count, warn, mute). The chat platform's replies to
    the recall and mute requests, and the remote classifier's verdict, are
    inputs. */
module Guardian {
  import opened Wrappers
  import opened Strings
  import opened AhoCorasick
  import opened Violations

  // -----------------------------------------------------------------------
  // CQ codes

  /** The index in `s` of the first ']' that comes before any '\n', which
      is where the lazy `.*?` of `\[.*?\]` stops ('.' never matches '\n'). */
  function Closing(s: string): (r: Option<nat>)
    ensures r.Some? ==> r.value < |s| && s[r.value] == ']'
    ensures r.Some? ==> forall k :: 0 <= k < r.value ==> s[k] != '\n' && s[k] != ']'
  {
    if s == [] || s[0] == '\n' then None
    else if s[0] == ']' then Some(0)
    else match Closing(s[1..])
      case None => None
      case Some(j) => Some(j + 1)
  }

  /** `re.sub(r'\[.*?\]', '', s)`: scanning left to right, a '[' that has a
      ']' later on its line is removed together with everything up to and
      including the first such ']'; every other character is kept. */
  function RemoveCodes(s: string): (r: string)
    ensures |r| <= |s|
    decreases |s|
  {
    if s == [] then []
    else if s[0] == '[' && Closing(s[1..]).Some? then RemoveCodes(s[Closing(s[1..]).value + 2..])
    else [s[0]] + RemoveCodes(s[1..])
  }

  /** No bracketed code is left: no '[' has a ']' after it on its line. */
  ghost predicate NoCodes(s: string) {
    forall i :: 0 <= i < |s| && s[i] == '[' ==> Closing(s[i + 1..]).None?
  }

  /** `extract_text_from_message`: drop every CQ code, then strip. */
  function ExtractText(msg: string): (r: string)
    ensures IsStripped(r) && NoCodes(r)
  {
    var removed := RemoveCodes(msg);
    RemoveCodesLeavesNone(msg);
    StripKeepsNoCodes(removed);
    Strip(removed)
  }

  /** A text free of codes is left alone by the removal. */
  lemma {:induction false} RemoveCodesFixes(s: string)
    requires NoCodes(s)
    ensures RemoveCodes(s) == s
    decreases |s|
  {
    if s != [] {
      assert s[0] == '[' ==> Closing(s[1..]).None?;
      NoCodesSlice(s, 1, |s|, s[1..]);
      RemoveCodesFixes(s[1..]);
    }
  }

  /** Removal leaves no code behind, although removing one code may join
      the pieces on either side of it. */
  lemma {:induction false} RemoveCodesLeavesNone(s: string)
    ensures NoCodes(RemoveCodes(s))
    decreases |s|
  {
    if s != [] {
      if s[0] == '[' && Closing(s[1..]).Some? {
        RemoveCodesLeavesNone(s[Closing(s[1..]).value + 2..]);
      } else {
        RemoveCodesLeavesNone(s[1..]);
        var r := RemoveCodes(s[1..]);
        if s[0] == '[' {
          UnclosedStaysUnclosed(s[1..]);
        }
        NoCodesCons(s[0], r);
      }
    }
  }

  /** Once no ']' follows on the line, removal cannot bring one in. */
  lemma {:induction false} UnclosedStaysUnclosed(t: string)
    requires Closing(t).None?
    ensures Closing(RemoveCodes(t)).None?
    decreases |t|
  {
    if t != [] && t[0] != '\n' {
      assert Closing(t[1..]).None?;
      if t[0] == '[' {
        UnclosedStaysUnclosed(t[1..]);
      } else {
        UnclosedStaysUnclosed(t[1..]);
      }
      var r := RemoveCodes(t[1..]);
      assert RemoveCodes(t) == [t[0]] + r;
      assert ([t[0]] + r)[1..] == r;
    }
  }

  lemma NoCodesCons(c: char, r: string)
    requires NoCodes(r)
    requires c == '[' ==> Closing(r).None?
    ensures NoCodes([c] + r)
  {
    var s := [c] + r;
    forall i | 0 <= i < |s| && s[i] == '[' ensures Closing(s[i + 1..]).None? {
      if i == 0 {
        assert s[1..] == r;
      } else {
        var j := i - 1;
        assert r[j] == '[';
        assert Closing(r[j + 1..]).None?;
        assert s[i + 1..] == r[j + 1..];
      }
    }
  }

  /** Cutting a line short cannot create a ']' on it. */
  lemma {:induction false} UnclosedPrefix(s: string, n: nat)
    requires n <= |s| && Closing(s).None?
    ensures Closing(s[..n]).None?
    decreases n
  {
    if n > 0 && s[0] != '\n' {
      assert s[..n][1..] == s[1..][..n - 1];
      UnclosedPrefix(s[1..], n - 1);
    }
  }

  /** A piece of a text free of codes is free of codes. */
  lemma NoCodesSlice(s: string, a: nat, b: nat, t: string)
    requires a <= b <= |s| && NoCodes(s) && t == s[a..b]
    ensures NoCodes(t)
  {
    forall i | 0 <= i < |t| && t[i] == '[' ensures Closing(t[i + 1..]).None? {
      assert s[a + i] == '[';
      assert t[i + 1..] == s[a + i + 1..][..b - a - i - 1];
      UnclosedPrefix(s[a + i + 1..], b - a - i - 1);
    }
  }

  lemma StripKeepsNoCodes(s: string)
    requires NoCodes(s)
    ensures NoCodes(Strip(s))
  {
    StripLeftKeepsNoCodes(s);
    StripRightKeepsNoCodes(StripLeft(s));
  }

  lemma {:induction false} StripLeftKeepsNoCodes(s: string)
    requires NoCodes(s)
    ensures NoCodes(StripLeft(s))
    decreases |s|
  {
    if s != [] && IsSpace(s[0]) {
      NoCodesSlice(s, 1, |s|, s[1..]);
      StripLeftKeepsNoCodes(s[1..]);
    }
  }

  lemma {:induction false} StripRightKeepsNoCodes(s: string)
    requires NoCodes(s)
    ensures NoCodes(StripRight(s))
    decreases |s|
  {
    if s != [] && IsSpace(s[|s| - 1]) {
      NoCodesSlice(s, 0, |s| - 1, s[..|s| - 1]);
      StripRightKeepsNoCodes(s[..|s| - 1]);
    }
  }

  /** Extracting the text of an extracted text changes nothing. */
  lemma ExtractTextIdempotent(msg: string)
    ensures ExtractText(ExtractText(msg)) == ExtractText(msg)
  {
    var t := ExtractText(msg);
    RemoveCodesFixes(t);
  }

  /** A character that does not open a code is kept, and the rest of the
      text is handled on its own. */
  lemma RemoveCodesKeeps(c: char, t: string)
    requires c != '[' || Closing(t).None?
    ensures RemoveCodes([c] + t) == [c] + RemoveCodes(t)
  {
    var s := [c] + t;
    assert s[0] == c && s[1..] == t;
  }

  /** In a line without ']', the first ']' after it is the one that follows. */
  lemma {:induction false} ClosingAfter(x: string, t: string)
    requires ']' !in x && '\n' !in x
    ensures Closing(x + "]" + t) == Some(|x|)
    decreases |x|
  {
    var s := x + "]" + t;
    if x == [] {
      assert s[0] == ']';
    } else {
      assert x[0] in x;
      assert forall c :: c in x[1..] ==> c in x;
      ClosingAfter(x[1..], t);
      assert s[0] == x[0] && s[1..] == x[1..] + "]" + t;
    }
  }

  /** A code `[x]` is removed whole, and the text after it is handled on
      its own. */
  lemma RemoveCodesDrops(x: string, t: string)
    requires ']' !in x && '\n' !in x
    ensures RemoveCodes("[" + x + "]" + t) == RemoveCodes(t)
  {
    var s := "[" + x + "]" + t;
    assert s[1..] == x + "]" + t;
    ClosingAfter(x, t);
    assert s[|x| + 2..] == t;
  }

  /** A message made of one code followed by plain text (no code, no
      surrounding space) yields that text, e.g. `[CQ:at,qq=1]ok` yields `ok`. */
  lemma ExtractTextAfterCode(x: string, t: string)
    requires ']' !in x && '\n' !in x
    requires NoCodes(t) && IsStripped(t)
    ensures ExtractText("[" + x + "]" + t) == t
  {
    RemoveCodesDrops(x, t);
    RemoveCodesFixes(t);
  }

  // -----------------------------------------------------------------------
  // The persisted word list

  /** The words kept from the lines of the word file: each line stripped,
      blank lines and lines starting with '#' skipped. */
  function LoadedWords(lines: seq<string>): (words: set<string>)
    ensures forall w :: w in words ==> w != [] && IsStripped(w) && !StartsWith(w, "#")
  {
    set l | l in lines && KeptEntry(l) :: Strip(l)
  }

  /** A line whose stripped text is neither blank nor a '#' comment. */
  predicate KeptEntry(l: string) {
    Strip(l) != [] && !StartsWith(Strip(l), "#")
  }

  /** Saving words one per line and loading the file gives the same words,
      as long as none is blank, padded or starts with '#'. */
  lemma LoadSavedWords(words: set<string>, lines: seq<string>)
    requires forall w :: w in words ==> w != [] && IsStripped(w) && !StartsWith(w, "#")
    requires forall l :: l in lines <==> l in words
    ensures LoadedWords(lines) == words
  {
    forall w | w in words ensures w in LoadedWords(lines) {
      assert w in lines && Strip(w) == w;
    }
  }

  /** A word added through the command may begin with '#'; it is then
      skipped when the file is read back. */
  lemma HashWordNotReloaded()
    ensures LoadedWords(["#ad"]) == {}
  {
    assert IsStripped("#ad");
    assert Strip("#ad") == "#ad";
    assert StartsWith("#ad", "#");
  }

  // -----------------------------------------------------------------------
  // Commands

  /** The command name that follows the prefix. */
  const Keyword := "敏感词检测"

  datatype Command =
    | Usage
    | Enable
    | Disable
    | Status
    | AddWord(word: string)
    | RemoveWord(word: string)
    | AddWhitelist(user: string)
    | RemoveWhitelist(user: string)
    | ResetUser(user: string)
    | ViewRecord(user: string)
    | Set(param: string, value: string)
      /** `设置` with fewer than two arguments: no branch of the chain takes it. */
    | SetIncomplete
    | Unknown

  /** The command a stripped command text names, tried in the source's order. */
  function ParseCommand(ct: string): Command {
    if ct == [] then Usage
    else if ct in ["开启", "true", "on", "enable"] then Enable
    else if ct in ["关闭", "false", "off", "disable"] then Disable
    else if ct in ["状态", "status"] then Status
    else if StartsWith(ct, "添加敏感词 ") then AddWord(Strip(ct[6..]))
    else if StartsWith(ct, "删除敏感词 ") then RemoveWord(Strip(ct[6..]))
    else if StartsWith(ct, "添加白名单 ") then AddWhitelist(Strip(ct[6..]))
    else if StartsWith(ct, "删除白名单 ") then RemoveWhitelist(Strip(ct[6..]))
    else if StartsWith(ct, "重置用户违规 ") then ResetUser(Strip(ct[7..]))
    else if StartsWith(ct, "查看违规记录 ") then ViewRecord(Strip(ct[7..]))
    else if StartsWith(ct, "设置 ") then
      var parts := SplitWhitespace(ct[3..]);
      if |parts| >= 2 then Set(parts[0], parts[1]) else SetIncomplete
    else Unknown
  }

  /** A text starting with one of the argument-taking command names is
      none of the single-word commands. */
  lemma NotAWord(ct: string)
    requires ct != [] && ct[0] in "添删重查设"
    ensures ct !in ["开启", "true", "on", "enable"] && ct !in ["关闭", "false", "off", "disable"]
    ensures ct !in ["状态", "status"] && ct != []
  {
  }

  /** The single-word commands. */
  lemma ParseWords()
    ensures ParseCommand([]) == Usage
    ensures ParseCommand("开启") == Enable && ParseCommand("enable") == Enable
    ensures ParseCommand("true") == Enable && ParseCommand("on") == Enable
    ensures ParseCommand("关闭") == Disable && ParseCommand("disable") == Disable
    ensures ParseCommand("false") == Disable && ParseCommand("off") == Disable
    ensures ParseCommand("状态") == Status && ParseCommand("status") == Status
  {
  }

  /** Adding and removing words keep the argument. */
  lemma ParseWordCommands(arg: string)
    requires arg != [] && IsStripped(arg)
    ensures ParseCommand("添加敏感词 " + arg) == AddWord(arg)
    ensures ParseCommand("删除敏感词 " + arg) == RemoveWord(arg)
  {
    var a, b := "添加敏感词 " + arg, "删除敏感词 " + arg;
    NotAWord(a);
    NotAWord(b);
    assert a[..6] == "添加敏感词 " && a[6..] == arg;
    assert b[..6] == "删除敏感词 " && b[6..] == arg;
    assert Strip(arg) == arg;
    assert StartsWith(a, "添加敏感词 ");
    assert !StartsWith(b, "添加敏感词 ") && StartsWith(b, "删除敏感词 ") by { assert b[0] == '删'; }
  }

  /** Adding and removing whitelist entries keep the argument. */
  lemma ParseWhitelistCommands(arg: string)
    requires arg != [] && IsStripped(arg)
    ensures ParseCommand("添加白名单 " + arg) == AddWhitelist(arg)
    ensures ParseCommand("删除白名单 " + arg) == RemoveWhitelist(arg)
  {
    var c, d := "添加白名单 " + arg, "删除白名单 " + arg;
    NotAWord(c);
    NotAWord(d);
    assert c[..6] == "添加白名单 " && c[6..] == arg;
    assert d[..6] == "删除白名单 " && d[6..] == arg;
    assert Strip(arg) == arg;
    assert !StartsWith(c, "添加敏感词 ") && !StartsWith(c, "删除敏感词 ") by { assert c[0] == '添' && c[2] == '白'; }
    assert StartsWith(c, "添加白名单 ");
    assert !StartsWith(d, "添加敏感词 ") && !StartsWith(d, "删除敏感词 ") by { assert d[0] == '删' && d[2] == '白'; }
    assert !StartsWith(d, "添加白名单 ") && StartsWith(d, "删除白名单 ") by { assert d[0] == '删'; }
  }

  /** Resetting a record keeps the argument. */
  lemma ParseResetCommand(arg: string)
    requires arg != [] && IsStripped(arg)
    ensures ParseCommand("重置用户违规 " + arg) == ResetUser(arg)
  {
    var a := "重置用户违规 " + arg;
    NotAWord(a);
    assert a[..7] == "重置用户违规 " && a[7..] == arg;
    assert Strip(arg) == arg;
    assert !StartsWith(a, "添加敏感词 ") && !StartsWith(a, "删除敏感词 ") by { assert a[0] == '重'; }
    assert !StartsWith(a, "添加白名单 ") && !StartsWith(a, "删除白名单 ") by { assert a[0] == '重'; }
  }

  /** Viewing a record keeps the argument. */
  lemma ParseViewCommand(arg: string)
    requires arg != [] && IsStripped(arg)
    ensures ParseCommand("查看违规记录 " + arg) == ViewRecord(arg)
  {
    var b := "查看违规记录 " + arg;
    NotAWord(b);
    assert b[..7] == "查看违规记录 " && b[7..] == arg;
    assert Strip(arg) == arg;
    assert !StartsWith(b, "添加敏感词 ") && !StartsWith(b, "删除敏感词 ") by { assert b[0] == '查'; }
    assert !StartsWith(b, "添加白名单 ") && !StartsWith(b, "删除白名单 ") by { assert b[0] == '查'; }
    assert !StartsWith(b, "重置用户违规 ") by { assert b[0] == '查'; }
  }

  /** The prefixes tried before `设置 ` do not match a text starting with '设'. */
  lemma SetSkipsOthers(a: string)
    requires a != [] && a[0] == '设'
    ensures !StartsWith(a, "添加敏感词 ") && !StartsWith(a, "删除敏感词 ")
    ensures !StartsWith(a, "添加白名单 ") && !StartsWith(a, "删除白名单 ")
    ensures !StartsWith(a, "重置用户违规 ") && !StartsWith(a, "查看违规记录 ")
  {
  }

  /** `设置` takes its first two arguments. */
  lemma ParseSetCommand(p: string, v: string)
    requires p != [] && v != [] && NoSpace(p) && NoSpace(v)
    ensures ParseCommand("设置 " + p + " " + v) == Set(p, v)
  {
    var a := "设置 " + p + " " + v;
    assert a[..3] == "设置 " && a[3..] == p + " " + v;
    ParseSetPrefix(a);
    SplitTwoWords(p, v);
  }

  /** A text starting with `设置 ` is split after the command name. */
  lemma ParseSetPrefix(a: string)
    requires StartsWith(a, "设置 ")
    ensures var parts := SplitWhitespace(a[3..]);
            ParseCommand(a) == if |parts| >= 2 then Set(parts[0], parts[1]) else SetIncomplete
  {
    NotAWord(a);
    SetSkipsOthers(a);
  }

  /** `设置` with one argument is not taken by any branch. */
  lemma ParseSetIncomplete(p: string)
    requires p != [] && NoSpace(p)
    ensures ParseCommand("设置 " + p) == SetIncomplete
  {
    var b := "设置 " + p;
    assert b[..3] == "设置 " && b[3..] == p;
    ParseSetPrefix(b);
    SplitLeadingWord(p, []);
    assert p + [] == p;
    assert SplitWhitespace([]) == [];
    assert |SplitWhitespace(b[3..])| == 1;
  }

  // -----------------------------------------------------------------------
  // Inputs and observable effects

  /** A message event: whether it came from a group, the ids involved and
      the message rendered as text with its CQ codes. */
  datatype Event = Event(isGroupMessage: bool, groupId: nat, userId: nat, selfId: nat,
                         messageId: int, message: string)

  /** The remote classifier's reply: its status and its word list. */
  datatype ApiReply = ApiReply(status: string, forbiddenWords: seq<string>)

  /** How the recall request ended: done, the five-second wait ran out, or
      the platform raised an error with the given text. */
  datatype DeleteOutcome = Deleted | TimedOut | Raised(error: string)

  datatype Reply =
    | AdminOnly
    | UsageHelp
    | UnknownCommand
    | Enabled
    | Disabled
    | StatusReport(enabled: bool, wordCount: nat, whitelistCount: nat)
    | NoWordGiven
    | WordAdded(word: string)
    | WordPresent(word: string)
    | WordRemoved(word: string)
    | WordAbsent(word: string)
    | InvalidQQ
    | Whitelisted(user: string)
    | AlreadyWhitelisted(user: string)
    | Unwhitelisted(user: string)
    | NotWhitelisted(user: string)
    | RecordReset(user: string)
    | RecordShown(user: string, count: nat, firstTime: int, lastTime: int, recent: seq<Offense>)
    | NoRecord(user: string)
    | WindowSet(value: string)
    | MaxSet(value: string)
      /** the setting is stored, but formatting the reply raises */
    | SetFailed
    | InvalidSetting
    | Warning(offender: nat, count: nat, words: set<string>)
    | BanNotice(muted: nat)

  /** What the handler asks of the platform, in order. */
  datatype Effect = Send(reply: Reply) | Recall(messageId: int) | Mute(user: nat, duration: nat)

  /** The plugin's mutable state. */
  datatype Store = Store(enabledGroups: map<string, bool>, localWords: set<string>,
                         whitelist: set<string>, records: Table<Record>,
                         cooldowns: Table<int>, config: Config)

  datatype Outcome = Outcome(store: Store, handled: bool, effects: seq<Effect>)

  /** The classifier's words count only when its status is "forbidden". */
  function ApiWords(api: ApiReply): set<string> {
    if api.status == "forbidden" then set w | w in api.forbiddenWords else {}
  }

  /** `safe_delete_message`: a timeout of the wait is a failure, but an error
      whose text mentions a timeout or an earlier recall counts as done. */
  predicate DeleteSucceeded(o: DeleteOutcome) {
    match o
    case Deleted => true
    case TimedOut => false
    case Raised(e) =>
      var l := Lower(e);
      Contains(l, "timeout") || Contains(l, "already recalled") || Contains(l, "已被撤回")
  }

  /** The tolerated error texts are matched regardless of case. */
  lemma DeleteIgnoresCase(e: string)
    ensures DeleteSucceeded(Raised(Lower(e))) == DeleteSucceeded(Raised(e))
  {
    LowerIdempotent(e);
  }

  /** A real timeout of the wait fails, while an error that merely says
      "Timeout" counts as done. */
  lemma TimeoutsDiffer()
    ensures !DeleteSucceeded(TimedOut)
    ensures DeleteSucceeded(Raised("Timeout"))
  {
    assert Lower("Timeout") == "timeout";
    assert OccursAt("timeout", "timeout", 0);
  }

  // -----------------------------------------------------------------------
  // The decision, as functions of the state

  /** An administrator command and the state and reply it leads to. */
  function Execute(s: Store, cmd: Command, group: nat): (Store, Reply)
    requires !cmd.SetIncomplete?
  {
    var g := NatToString(group);
    match cmd
    case Usage => (s, UsageHelp)
    case Enable => (s.(enabledGroups := s.enabledGroups[g := true]), Enabled)
    case Disable => (s.(enabledGroups := s.enabledGroups - {g}), Disabled)
    case Status => (s, StatusReport(g in s.enabledGroups, |s.localWords|, |s.whitelist|))
    case AddWord(w) =>
      if w == [] then (s, NoWordGiven)
      else if w in s.localWords then (s, WordPresent(w))
      else (s.(localWords := s.localWords + {w}), WordAdded(w))
    case RemoveWord(w) =>
      if w == [] then (s, NoWordGiven)
      else if w !in s.localWords then (s, WordAbsent(w))
      else (s.(localWords := s.localWords - {w}), WordRemoved(w))
    case AddWhitelist(u) =>
      if !IsDigits(u) then (s, InvalidQQ)
      else if u in s.whitelist then (s, AlreadyWhitelisted(u))
      else (s.(whitelist := s.whitelist + {u}), Whitelisted(u))
    case RemoveWhitelist(u) =>
      if !IsDigits(u) then (s, InvalidQQ)
      else if u !in s.whitelist then (s, NotWhitelisted(u))
      else (s.(whitelist := s.whitelist - {u}), Unwhitelisted(u))
    case ResetUser(u) =>
      if !IsDigits(u) then (s, InvalidQQ)
      else (s.(records := Delete(s.records, g, NatToString(DigitsValue(u)))), RecordReset(u))
    case ViewRecord(u) =>
      if !IsDigits(u) then (s, InvalidQQ)
      else (match Lookup(s.records, g, u)
            case Some(r) => (s, RecordShown(u, r.count, r.firstTime, r.lastTime, KeepLast(r.messages, 5)))
            case None => (s, NoRecord(u)))
    case Set(p, v) =>
      if p == "窗口时间" && IsDigits(v) then (s.(config := s.config.(violationWindow := DigitsValue(v))), WindowSet(v))
      else if p == "最大违规" && IsDigits(v) then (s.(config := s.config.(maxViolations := DigitsValue(v))), MaxSet(v))
      else if p == "禁言时长" && IsDigits(v) then (s.(config := s.config.(banDuration := DigitsValue(v))), SetFailed)
      else (s, InvalidSetting)
    case Unknown => (s, UnknownCommand)
  }

  /** The moderation of an ordinary message whose text is `clean`, given the
      local matches `local` and the outcomes of the platform's requests
      (`recalled`: whether the recall succeeded). */
  function Enforce(s: Store, admins: set<string>, ev: Event, clean: string, local: set<string>, now: int,
                   api: ApiReply, recalled: bool, muteOk: bool): Outcome
  {
    var g := NatToString(ev.groupId);
    var u := NatToString(ev.userId);
    if g !in s.enabledGroups || u in admins || u in s.whitelist || CoolingDown(s.cooldowns, g, u, now) then
      Outcome(s, false, [])
    else
      var s1 := s.(cooldowns := Purge(s.cooldowns, g, u, now));
      var words := local + ApiWords(api);
      if words == {} then Outcome(s1, false, [])
      else Penalize(s1, ev, clean, words, now, recalled, muteOk)
  }

  /** The handling of a message in which `words` were found, from the
      state after the purge: recall it (`recalled` says whether that
      succeeded), and once it is gone count it and go on to the sanction. */
  function Penalize(s: Store, ev: Event, clean: string, words: set<string>, now: int,
                    recalled: bool, muteOk: bool): Outcome
  {
    var g := NatToString(ev.groupId);
    var u := NatToString(ev.userId);
    if !recalled then Outcome(s, true, [Recall(ev.messageId)])
    else
      var rec := Bumped(Lookup(s.records, g, u), now, clean, ev.messageId, s.config);
      Sanction(s.(records := Put(s.records, g, u, rec)), ev, rec.count, words, now, muteOk)
  }

  /** After the offence was counted (`count` is the updated count): warn,
      and at the threshold mute; a successful mute records when it runs out
      and drops the record. */
  function Sanction(s: Store, ev: Event, count: nat, words: set<string>, now: int, muteOk: bool): Outcome {
    var g := NatToString(ev.groupId);
    var u := NatToString(ev.userId);
    var warned := [Recall(ev.messageId), Send(Warning(ev.userId, count, words))];
    if !ShouldBan(Lookup(s.records, g, u), now, s.config) then Outcome(s, true, warned)
    else if !muteOk then Outcome(s, true, warned + [Mute(ev.userId, s.config.banDuration)])
    else
      Outcome(s.(cooldowns := Put(s.cooldowns, g, u, now + s.config.banDuration),
                 records := Delete(s.records, g, u)),
              true, warned + [Mute(ev.userId, s.config.banDuration), Send(BanNotice(ev.userId))])
  }

  /** The message text starts with the command prefix. */
  predicate IsCommand(clean: string, reminder: string) {
    StartsWith(clean, reminder + Keyword)
  }

  /** The command a command text names. */
  function CommandOf(clean: string, reminder: string): Command
    requires IsCommand(clean, reminder)
  {
    ParseCommand(Strip(clean[|reminder + Keyword|..]))
  }

  /** `on_message`: the whole handling of one event. */
  function Step(s: Store, admins: set<string>, reminder: string, ev: Event, local: set<string>, now: int,
                api: ApiReply, deletion: DeleteOutcome, muteOk: bool): Outcome
  {
    var clean := ExtractText(ev.message);
    if !ev.isGroupMessage || ev.userId == ev.selfId || clean == [] then Outcome(s, false, [])
    else if IsCommand(clean, reminder) && NatToString(ev.userId) !in admins then
      Outcome(s, true, [Send(AdminOnly)])
    else if IsCommand(clean, reminder) && !CommandOf(clean, reminder).SetIncomplete? then
      var (s', reply) := Execute(s, CommandOf(clean, reminder), ev.groupId);
      Outcome(s', true, [Send(reply)])
    else Enforce(s, admins, ev, clean, local, now, api, DeleteSucceeded(deletion), muteOk)
  }

  // -----------------------------------------------------------------------
  // What the decision guarantees

  /** Commands are recognised before anything looks at whether the group
      has detection on: from anyone but an administrator they get the
      refusal and nothing else, in any group; an administrator's command
      (other than an incomplete `设置`) gets one reply and never touches
      the mute times. */
  lemma CommandBeforeEnablement(s: Store, admins: set<string>, reminder: string, ev: Event, local: set<string>,
                                now: int, api: ApiReply, deletion: DeleteOutcome, muteOk: bool)
    requires ev.isGroupMessage && ev.userId != ev.selfId
    requires IsCommand(ExtractText(ev.message), reminder)
    ensures NatToString(ev.userId) !in admins ==>
              Step(s, admins, reminder, ev, local, now, api, deletion, muteOk) == Outcome(s, true, [Send(AdminOnly)])
    ensures NatToString(ev.userId) in admins && !CommandOf(ExtractText(ev.message), reminder).SetIncomplete? ==>
              var o := Step(s, admins, reminder, ev, local, now, api, deletion, muteOk);
              o.handled && |o.effects| == 1 && o.effects[0].Send? && o.store.cooldowns == s.cooldowns
  {
    var clean := ExtractText(ev.message);
    assert clean != [] by {
      assert |clean| >= |reminder + Keyword| >= |Keyword| > 0;
    }
    var o := Step(s, admins, reminder, ev, local, now, api, deletion, muteOk);
    if NatToString(ev.userId) in admins && !CommandOf(clean, reminder).SetIncomplete? {
      var cmd := CommandOf(clean, reminder);
      ExecuteKeepsCooldowns(s, cmd, ev.groupId);
      assert o == Outcome(Execute(s, cmd, ev.groupId).0, true, [Send(Execute(s, cmd, ev.groupId).1)]);
    }
  }

  /** No command touches the mute times. */
  lemma ExecuteKeepsCooldowns(s: Store, cmd: Command, group: nat)
    requires !cmd.SetIncomplete?
    ensures Execute(s, cmd, group).0.cooldowns == s.cooldowns
  {
  }

  /** Adding a new word and removing it again restores the word list; a
      second addition is refused and changes nothing. */
  lemma WordCommandsInverse(s: Store, w: string, group: nat)
    requires w != [] && w !in s.localWords
    ensures var (s1, r1) := Execute(s, AddWord(w), group);
            r1 == WordAdded(w) && w in s1.localWords
            && Execute(s1, AddWord(w), group) == (s1, WordPresent(w))
            && Execute(s1, RemoveWord(w), group) == (s, WordRemoved(w))
  {
    assert s.localWords + {w} - {w} == s.localWords;
  }

  /** The same for whitelist entries, which must be digit strings. */
  lemma WhitelistCommandsInverse(s: Store, u: string, group: nat)
    requires IsDigits(u) && u !in s.whitelist
    ensures var (s1, r1) := Execute(s, AddWhitelist(u), group);
            r1 == Whitelisted(u) && u in s1.whitelist
            && Execute(s1, AddWhitelist(u), group) == (s1, AlreadyWhitelisted(u))
            && Execute(s1, RemoveWhitelist(u), group) == (s, Unwhitelisted(u))
  {
    assert s.whitelist + {u} - {u} == s.whitelist;
  }

  /** The status report reflects the last enable or disable of the group. */
  lemma StatusAfterToggle(s: Store, group: nat)
    ensures Execute(Execute(s, Enable, group).0, Status, group).1.enabled
    ensures !Execute(Execute(s, Disable, group).0, Status, group).1.enabled
  {
  }

  /** `设置` with a single argument falls out of the command chain into the
      moderation path, which ignores administrators: nothing happens. */
  lemma IncompleteSetIgnored(s: Store, admins: set<string>, reminder: string, ev: Event, local: set<string>,
                             now: int, api: ApiReply, deletion: DeleteOutcome, muteOk: bool)
    requires ev.isGroupMessage && ev.userId != ev.selfId && NatToString(ev.userId) in admins
    requires IsCommand(ExtractText(ev.message), reminder) && CommandOf(ExtractText(ev.message), reminder).SetIncomplete?
    ensures Step(s, admins, reminder, ev, local, now, api, deletion, muteOk) == Outcome(s, false, [])
  {
    var clean := ExtractText(ev.message);
    assert clean != [] by {
      assert |clean| >= |reminder + Keyword| >= |Keyword| > 0;
    }
  }

  /** Messages from groups without detection, from administrators, from
      whitelisted users and from users still muted are left alone. */
  lemma ExemptSendersIgnored(s: Store, admins: set<string>, ev: Event, clean: string, local: set<string>,
                             now: int, api: ApiReply, recalled: bool, muteOk: bool)
    requires var g, u := NatToString(ev.groupId), NatToString(ev.userId);
             g !in s.enabledGroups || u in admins || u in s.whitelist || CoolingDown(s.cooldowns, g, u, now)
    ensures Enforce(s, admins, ev, clean, local, now, api, recalled, muteOk) == Outcome(s, false, [])
  {
  }

  /** Only a "forbidden" verdict of the classifier contributes words. */
  lemma ClassifierOnlyWhenForbidden(s: Store, admins: set<string>, ev: Event, clean: string, local: set<string>,
                                    now: int, api: ApiReply, recalled: bool, muteOk: bool)
    requires api.status != "forbidden"
    ensures Enforce(s, admins, ev, clean, local, now, api, recalled, muteOk)
            == Enforce(s, admins, ev, clean, local, now, ApiReply("error", []), recalled, muteOk)
  {
  }

  /** Moderation acts exactly on messages with a local or classifier match. */
  lemma ActsOnlyOnMatches(s: Store, admins: set<string>, ev: Event, clean: string, local: set<string>,
                          now: int, api: ApiReply, recalled: bool, muteOk: bool)
    ensures var o := Enforce(s, admins, ev, clean, local, now, api, recalled, muteOk);
            var g, u := NatToString(ev.groupId), NatToString(ev.userId);
            o.handled <==> (g in s.enabledGroups && u !in admins && u !in s.whitelist
                            && !CoolingDown(s.cooldowns, g, u, now) && local + ApiWords(api) != {})
    ensures var o := Enforce(s, admins, ev, clean, local, now, api, recalled, muteOk);
            o.handled ==> o.effects[0] == Recall(ev.messageId)
  {
  }

  /** A recall that failed means no record update, no warning and no mute. */
  lemma FailedRecallStops(s: Store, admins: set<string>, ev: Event, clean: string, local: set<string>,
                          now: int, api: ApiReply, recalled: bool, muteOk: bool)
    requires !recalled
    ensures var o := Enforce(s, admins, ev, clean, local, now, api, recalled, muteOk);
            o.store.records == s.records && (forall e :: e in o.effects ==> e.Recall?)
  {
  }

  /** The mute is requested exactly when the message was recalled and the
      updated count reached the maximum. */
  lemma MuteAtThreshold(s: Store, admins: set<string>, ev: Event, clean: string, local: set<string>,
                        now: int, api: ApiReply, recalled: bool, muteOk: bool)
    ensures var o := Enforce(s, admins, ev, clean, local, now, api, recalled, muteOk);
            var g, u := NatToString(ev.groupId), NatToString(ev.userId);
            var count := Bumped(Lookup(s.records, g, u), now, clean, ev.messageId, s.config).count;
            Mute(ev.userId, s.config.banDuration) in o.effects
            <==> o.handled && recalled && count >= s.config.maxViolations
  {
    var g, u := NatToString(ev.groupId), NatToString(ev.userId);
    var words := local + ApiWords(api);
    if !(g !in s.enabledGroups || u in admins || u in s.whitelist || CoolingDown(s.cooldowns, g, u, now)) && words != {} {
      BanRightAfterBump(Lookup(s.records, g, u), now, clean, ev.messageId, s.config);
      PenalizeAsksMute(s.(cooldowns := Purge(s.cooldowns, g, u, now)), ev, clean, words, now, recalled, muteOk);
    }
  }

  /** A message with words found is always handled, and the mute is
      asked for exactly when the recall succeeded and the updated record
      calls for a ban. */
  lemma PenalizeAsksMute(s: Store, ev: Event, clean: string, words: set<string>, now: int,
                         recalled: bool, muteOk: bool)
    ensures var o := Penalize(s, ev, clean, words, now, recalled, muteOk);
            var rec := Bumped(Lookup(s.records, NatToString(ev.groupId), NatToString(ev.userId)),
                              now, clean, ev.messageId, s.config);
            && o.handled
            && (Mute(ev.userId, s.config.banDuration) in o.effects <==> recalled && ShouldBan(Some(rec), now, s.config))
  {
    var g, u := NatToString(ev.groupId), NatToString(ev.userId);
    var o := Penalize(s, ev, clean, words, now, recalled, muteOk);
    if recalled {
      var rec := Bumped(Lookup(s.records, g, u), now, clean, ev.messageId, s.config);
      var s2 := s.(records := Put(s.records, g, u, rec));
      assert o == Sanction(s2, ev, rec.count, words, now, muteOk);
      assert Lookup(s2.records, g, u) == Some(rec);
      SanctionMute(s2, ev, rec.count, words, now, muteOk);
    } else {
      assert o.effects == [Recall(ev.messageId)];
    }
  }

  /** What a recalled and counted message does to the sender's entries:
      a successful mute sets the mute time and drops the record, a failed
      one keeps the updated record, and without a successful mute the mute
      times stay as they were. */
  lemma PenalizeMute(s: Store, ev: Event, clean: string, words: set<string>, now: int,
                     recalled: bool, muteOk: bool)
    ensures var o := Penalize(s, ev, clean, words, now, recalled, muteOk);
            var g, u := NatToString(ev.groupId), NatToString(ev.userId);
            var asked := Mute(ev.userId, s.config.banDuration) in o.effects;
            && (asked && muteOk ==> Lookup(o.store.cooldowns, g, u) == Some(now + s.config.banDuration)
                                    && Lookup(o.store.records, g, u) == None)
            && (asked && !muteOk ==> Lookup(o.store.records, g, u)
                                     == Some(Bumped(Lookup(s.records, g, u), now, clean, ev.messageId, s.config)))
            && (!(asked && muteOk) ==> o.store.cooldowns == s.cooldowns)
  {
    var g, u := NatToString(ev.groupId), NatToString(ev.userId);
    var o := Penalize(s, ev, clean, words, now, recalled, muteOk);
    if recalled {
      var rec := Bumped(Lookup(s.records, g, u), now, clean, ev.messageId, s.config);
      var s2 := s.(records := Put(s.records, g, u, rec));
      assert o == Sanction(s2, ev, rec.count, words, now, muteOk);
      assert Lookup(s2.records, g, u) == Some(rec);
      SanctionMute(s2, ev, rec.count, words, now, muteOk);
    } else {
      assert o.effects == [Recall(ev.messageId)];
    }
  }

  /** The sanction alone: the mute is asked for exactly when the record
      calls for a ban; a successful one sets the mute time and drops the
      record, and otherwise the state stays as it was. */
  lemma SanctionMute(s: Store, ev: Event, count: nat, words: set<string>, now: int, muteOk: bool)
    ensures var o := Sanction(s, ev, count, words, now, muteOk);
            var g, u := NatToString(ev.groupId), NatToString(ev.userId);
            var asked := Mute(ev.userId, s.config.banDuration) in o.effects;
            && o.handled
            && (asked <==> ShouldBan(Lookup(s.records, g, u), now, s.config))
            && (asked && muteOk ==> Lookup(o.store.cooldowns, g, u) == Some(now + s.config.banDuration)
                                    && Lookup(o.store.records, g, u) == None)
            && (!(asked && muteOk) ==> o.store == s)
  {
    var warned := [Recall(ev.messageId), Send(Warning(ev.userId, count, words))];
    assert Mute(ev.userId, s.config.banDuration) !in warned;
  }

  /** The same for other users: their entries are left alone. */
  lemma PenalizeOthers(s: Store, ev: Event, clean: string, words: set<string>, now: int,
                       recalled: bool, muteOk: bool, h: string, w: string)
    requires (h, w) != (NatToString(ev.groupId), NatToString(ev.userId))
    ensures var o := Penalize(s, ev, clean, words, now, recalled, muteOk);
            Lookup(o.store.cooldowns, h, w) == Lookup(s.cooldowns, h, w)
            && Lookup(o.store.records, h, w) == Lookup(s.records, h, w)
  {
    if recalled {
      var g, u := NatToString(ev.groupId), NatToString(ev.userId);
      var rec := Bumped(Lookup(s.records, g, u), now, clean, ev.messageId, s.config);
      PutElsewhere(s.records, g, u, rec, h, w);
      SanctionOthers(s.(records := Put(s.records, g, u, rec)), ev, rec.count, words, now, muteOk, h, w);
    }
  }

  /** The sanction alone leaves other users' entries alone. */
  lemma SanctionOthers(s: Store, ev: Event, count: nat, words: set<string>, now: int, muteOk: bool,
                       h: string, w: string)
    requires (h, w) != (NatToString(ev.groupId), NatToString(ev.userId))
    ensures var o := Sanction(s, ev, count, words, now, muteOk);
            Lookup(o.store.cooldowns, h, w) == Lookup(s.cooldowns, h, w)
            && Lookup(o.store.records, h, w) == Lookup(s.records, h, w)
  {
    var g, u := NatToString(ev.groupId), NatToString(ev.userId);
    PutElsewhere(s.cooldowns, g, u, now + s.config.banDuration, h, w);
    DeleteElsewhere(s.records, g, u, h, w);
  }

  /** A moderation with any effect is the handling of a detected message
      from the state after the purge. */
  lemma EnforceActs(s: Store, admins: set<string>, ev: Event, clean: string, local: set<string>,
                    now: int, api: ApiReply, recalled: bool, muteOk: bool)
    ensures var o := Enforce(s, admins, ev, clean, local, now, api, recalled, muteOk);
            var g, u := NatToString(ev.groupId), NatToString(ev.userId);
            o.effects != [] ==>
              o == Penalize(s.(cooldowns := Purge(s.cooldowns, g, u, now)), ev, clean, local + ApiWords(api), now, recalled, muteOk)
  {
  }

  /** A successful mute records when it runs out and drops the record. */
  lemma MuteStartsCooldown(s: Store, admins: set<string>, ev: Event, clean: string, local: set<string>,
                           now: int, api: ApiReply, recalled: bool, muteOk: bool)
    ensures var o := Enforce(s, admins, ev, clean, local, now, api, recalled, muteOk);
            var g, u := NatToString(ev.groupId), NatToString(ev.userId);
            var asked := Mute(ev.userId, s.config.banDuration) in o.effects;
            asked && muteOk ==> Lookup(o.store.cooldowns, g, u) == Some(now + s.config.banDuration)
                                && Lookup(o.store.records, g, u) == None
  {
    var g, u := NatToString(ev.groupId), NatToString(ev.userId);
    var s1 := s.(cooldowns := Purge(s.cooldowns, g, u, now));
    EnforceActs(s, admins, ev, clean, local, now, api, recalled, muteOk);
    PenalizeMute(s1, ev, clean, local + ApiWords(api), now, recalled, muteOk);
  }

  /** A failed mute leaves the updated record in place. */
  lemma FailedMuteKeepsRecord(s: Store, admins: set<string>, ev: Event, clean: string, local: set<string>,
                              now: int, api: ApiReply, recalled: bool, muteOk: bool)
    ensures var o := Enforce(s, admins, ev, clean, local, now, api, recalled, muteOk);
            var g, u := NatToString(ev.groupId), NatToString(ev.userId);
            var asked := Mute(ev.userId, s.config.banDuration) in o.effects;
            asked && !muteOk ==> Lookup(o.store.records, g, u)
                                 == Some(Bumped(Lookup(s.records, g, u), now, clean, ev.messageId, s.config))
  {
    var g, u := NatToString(ev.groupId), NatToString(ev.userId);
    var words := local + ApiWords(api);
    var o := Enforce(s, admins, ev, clean, local, now, api, recalled, muteOk);
    if !(g !in s.enabledGroups || u in admins || u in s.whitelist || CoolingDown(s.cooldowns, g, u, now)) && words != {} {
      var s1 := s.(cooldowns := Purge(s.cooldowns, g, u, now));
      assert o == Penalize(s1, ev, clean, words, now, recalled, muteOk);
      PenalizeMute(s1, ev, clean, words, now, recalled, muteOk);
    } else {
      assert o.effects == [];
    }
  }

  /** Unless a mute succeeded, the user's mute time is at most purged. */
  lemma CooldownOnlyOnMute(s: Store, admins: set<string>, ev: Event, clean: string, local: set<string>,
                           now: int, api: ApiReply, recalled: bool, muteOk: bool)
    ensures var o := Enforce(s, admins, ev, clean, local, now, api, recalled, muteOk);
            var g, u := NatToString(ev.groupId), NatToString(ev.userId);
            var asked := Mute(ev.userId, s.config.banDuration) in o.effects;
            !(asked && muteOk) ==> Lookup(o.store.cooldowns, g, u) == None
                                   || Lookup(o.store.cooldowns, g, u) == Lookup(s.cooldowns, g, u)
  {
    var g, u := NatToString(ev.groupId), NatToString(ev.userId);
    var words := local + ApiWords(api);
    var o := Enforce(s, admins, ev, clean, local, now, api, recalled, muteOk);
    if !(g !in s.enabledGroups || u in admins || u in s.whitelist || CoolingDown(s.cooldowns, g, u, now)) && words != {} {
      var s1 := s.(cooldowns := Purge(s.cooldowns, g, u, now));
      assert o == Penalize(s1, ev, clean, words, now, recalled, muteOk);
      PenalizeMute(s1, ev, clean, words, now, recalled, muteOk);
    } else {
      assert o.effects == [];
    }
  }

  /** Moderating one user's message changes no other user's mute time or record. */
  lemma OthersUntouched(s: Store, admins: set<string>, ev: Event, clean: string, local: set<string>,
                        now: int, api: ApiReply, recalled: bool, muteOk: bool, h: string, w: string)
    requires (h, w) != (NatToString(ev.groupId), NatToString(ev.userId))
    ensures var o := Enforce(s, admins, ev, clean, local, now, api, recalled, muteOk);
            Lookup(o.store.cooldowns, h, w) == Lookup(s.cooldowns, h, w)
            && Lookup(o.store.records, h, w) == Lookup(s.records, h, w)
  {
    var g, u := NatToString(ev.groupId), NatToString(ev.userId);
    var words := local + ApiWords(api);
    if !(g !in s.enabledGroups || u in admins || u in s.whitelist || CoolingDown(s.cooldowns, g, u, now)) {
      DeleteElsewhere(s.cooldowns, g, u, h, w);
      if words != {} {
        PenalizeOthers(s.(cooldowns := Purge(s.cooldowns, g, u, now)), ev, clean, words, now, recalled, muteOk, h, w);
      }
    }
  }

  /** After a successful mute, every later ordinary message of that user in
      that group is ignored until the mute runs out. */
  lemma MutedUserSkipped(s: Store, admins: set<string>, ev: Event, clean: string, local: set<string>,
                         now: int, api: ApiReply, recalled: bool,
                         ev2: Event, clean2: string, local2: set<string>, later: int,
                         api2: ApiReply, recalled2: bool, muteOk2: bool)
    requires var o := Enforce(s, admins, ev, clean, local, now, api, recalled, true);
             Mute(ev.userId, s.config.banDuration) in o.effects
    requires ev2.groupId == ev.groupId && ev2.userId == ev.userId && later < now + s.config.banDuration
    ensures var o := Enforce(s, admins, ev, clean, local, now, api, recalled, true);
            Enforce(o.store, admins, ev2, clean2, local2, later, api2, recalled2, muteOk2) == Outcome(o.store, false, [])
  {
    var o := Enforce(s, admins, ev, clean, local, now, api, recalled, true);
    MuteStartsCooldown(s, admins, ev, clean, local, now, api, recalled, true);
    assert CoolingDown(o.store.cooldowns, NatToString(ev.groupId), NatToString(ev.userId), later);
  }

  /** The same on the whole handler: once the message is not a command (or
      its sender is no administrator, so a command is refused), a sender
      exempt from moderation leaves the state as it was, and an ordinary
      message of theirs is ignored. */
  lemma StepExemptIgnored(s: Store, admins: set<string>, reminder: string, ev: Event, local: set<string>,
                          now: int, api: ApiReply, deletion: DeleteOutcome, muteOk: bool)
    requires var g, u := NatToString(ev.groupId), NatToString(ev.userId);
             g !in s.enabledGroups || u in admins || u in s.whitelist || CoolingDown(s.cooldowns, g, u, now)
    ensures !IsCommand(ExtractText(ev.message), reminder) ==>
              Step(s, admins, reminder, ev, local, now, api, deletion, muteOk) == Outcome(s, false, [])
    ensures NatToString(ev.userId) !in admins ==>
              Step(s, admins, reminder, ev, local, now, api, deletion, muteOk).store == s
  {
    ExemptSendersIgnored(s, admins, ev, ExtractText(ev.message), local, now, api, DeleteSucceeded(deletion), muteOk);
  }

  /** The whole handler changes no other user's mute time or record, unless
      it runs an administrator's command (`重置用户违规` resets whomever it
      names). */
  lemma StepOthersUntouched(s: Store, admins: set<string>, reminder: string, ev: Event, local: set<string>,
                            now: int, api: ApiReply, deletion: DeleteOutcome, muteOk: bool, h: string, w: string)
    requires (h, w) != (NatToString(ev.groupId), NatToString(ev.userId))
    requires !IsCommand(ExtractText(ev.message), reminder) || NatToString(ev.userId) !in admins
    ensures var o := Step(s, admins, reminder, ev, local, now, api, deletion, muteOk);
            Lookup(o.store.cooldowns, h, w) == Lookup(s.cooldowns, h, w)
            && Lookup(o.store.records, h, w) == Lookup(s.records, h, w)
  {
    OthersUntouched(s, admins, ev, ExtractText(ev.message), local, now, api, DeleteSucceeded(deletion), muteOk, h, w);
  }

  /** After the whole handler muted a user successfully, every later message
      of that user in that group leaves the state alone until the mute runs
      out, and a later message that is not a command is ignored. */
  lemma StepMutedUserSkipped(s: Store, admins: set<string>, reminder: string, ev: Event, local: set<string>,
                             now: int, api: ApiReply, deletion: DeleteOutcome,
                             ev2: Event, local2: set<string>, later: int,
                             api2: ApiReply, deletion2: DeleteOutcome, muteOk2: bool)
    requires var o := Step(s, admins, reminder, ev, local, now, api, deletion, true);
             Mute(ev.userId, s.config.banDuration) in o.effects
    requires ev2.groupId == ev.groupId && ev2.userId == ev.userId && later < now + s.config.banDuration
    ensures var o := Step(s, admins, reminder, ev, local, now, api, deletion, true);
            !IsCommand(ExtractText(ev2.message), reminder) ==>
              Step(o.store, admins, reminder, ev2, local2, later, api2, deletion2, muteOk2) == Outcome(o.store, false, [])
    ensures var o := Step(s, admins, reminder, ev, local, now, api, deletion, true);
            Step(o.store, admins, reminder, ev2, local2, later, api2, deletion2, muteOk2).store == o.store
  {
    var clean := ExtractText(ev.message);
    var recalled := DeleteSucceeded(deletion);
    var o := Step(s, admins, reminder, ev, local, now, api, deletion, true);
    assert o == Enforce(s, admins, ev, clean, local, now, api, recalled, true);
    ActsOnlyOnMatches(s, admins, ev, clean, local, now, api, recalled, true);
    assert NatToString(ev.userId) !in admins;
    MutedUserSkipped(s, admins, ev, clean, local, now, api, recalled,
                     ev2, ExtractText(ev2.message), local2, later, api2, DeleteSucceeded(deletion2), muteOk2);
    MuteStartsCooldown(s, admins, ev, clean, local, now, api, recalled, true);
    StepExemptIgnored(o.store, admins, reminder, ev2, local2, later, api2, deletion2, muteOk2);
  }
}
