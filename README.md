# Group moderation plugins, modelled in Dafny

This project models the decision logic of three chat-bot plugins for QQ
groups and proves properties of it.

- **GuardianWords**, a sensitive-word guard. It holds these parts:
  - an Aho-Corasick automaton over the admin-maintained word list;
  - the CQ-code stripping that turns a message into plain text;
  - the admin commands: enable, disable, status, add or remove a word, add or remove a whitelisted user, reset or view a record, change a setting;
  - the per-group, per-user violation records, with their counting window and ban threshold;
  - the mute-expiry table, and the order in which a matching message is handled: recall it, count the violation, warn, mute, reset the record.
- **BotMessageManager**, the recall command. A user replies to one of the bot's messages with the prefix and "撤回". The bot then deletes that message if the user may have it deleted: the user must be an administrator, or must have triggered that message within the last two minutes.
- **QishuiMusic**: the lyric cleaner, the preview of the cleaned lyrics, and the per-group whitelist that stops music-link parsing in a group.

Files:

- `wrappers.dfy`: `Option`.
- `strings.dfy`: the Python string operations the plugins rely on. These are `strip`, `split()`, `splitlines`, `join`, `startswith`, `in`, `lower`, `isdigit`, slicing and `str(int)`.
- `aho_corasick.dfy`: the automaton as a class. Its trie is a sequence of nodes addressed by index, with ghost paths and parents. `AddWord`, `BuildFail` (the breadth-first fail-link construction) and `Search` are methods with loops, proved against the automaton's invariant and against `ScanFrom`, the specification of a scan.
- `match_spec.dfy`: what a scan reports, stated on strings alone. The states are the prefixes of the words, each character moves to the longest known suffix of the text read, and a state reports itself and its longest known proper suffix when they are words. `Automaton.Search` is proved to report exactly this on a freshly built automaton.
- `match_examples.dfy`: three scans worked out on that reference.
- `violations.dfy`: the two-level tables and the record arithmetic.
- `guardian.dfy`: the guard's message handling as functions over a `Store` value. `Step` is the whole handler; `Execute` runs a command and `Enforce` handles an ordinary message.
- `guard_plugin.dfy`: the guard as a class. It has the plugin's module-level state as fields, and the methods that update them step by step. Each method is proved equal to the corresponding function of `guardian.dfy`.
- `recall.dfy`: the recall command's helpers and its decision.
- `qishui.dfy`: the lyric cleaner, the preview, the link search and the whitelist.

Platform answers are inputs:

- the classifier's reply;
- whether the deletion of a message succeeded, timed out or raised, and what it raised;
- whether a mute succeeded;
- what fetching a message returned;
- the sender's permission.

Time is an integer `now`. File contents arrive as their lines.

## Model

| member | source | states |
|---|---|---|
| AhoCorasick.Automaton.constructor | GuardianWords/GuardianWords.py:79-82 | a fresh automaton is valid, not built, counts no words, holds no words and no outputs |
| AhoCorasick.Automaton.AddWord | GuardianWords/GuardianWords.py:84-100 | the empty word changes nothing; any other word becomes a lexicon word, the count grows by one only when the word was not already terminal, and the automaton is marked not built |
| AhoCorasick.Automaton.BuildFail | GuardianWords/GuardianWords.py:102-135 | afterwards the automaton is built; the trie, its words and the count are unchanged; every non-root node fails to the node spelling the longest proper suffix of its path that the trie spells; each output list gains exactly the fail target's word when that target is terminal |
| AhoCorasick.Automaton.LinkChild | GuardianWords/GuardianWords.py:116-133 | one child's fail link: it points to the node spelling the longest proper suffix of the child's path that any node spells; only that child changes; its output gains the target's word when the target is terminal |
| AhoCorasick.Automaton.Chase | GuardianWords/GuardianWords.py:119-124 | the inner loop stops at the longest node beyond the parent's path that spells a suffix of it and has a child for the character; it ends with no node only when no such node exists |
| AhoCorasick.Automaton.SetLink | GuardianWords/GuardianWords.py:128-133 | only the child's fail link and output change: the link is the target, and the output gains the target's word when the target is terminal |
| AhoCorasick.ChaseStep | GuardianWords/GuardianWords.py:123-124 | one step up the fail chain skips no node that spells a suffix of the parent's path with a child for the character, and strictly shortens the path |
| AhoCorasick.LinkLongest | GuardianWords/GuardianWords.py:125-130 | where the chase stops, the child it names (or the root) spells the longest proper suffix of the new node's path among all nodes |
| AhoCorasick.Automaton.LinkDepthOne | GuardianWords/GuardianWords.py:104-109 | the first loop: every child of the root fails to the root and is queued, no other node changes, and the trie and its words are unchanged |
| AhoCorasick.Automaton.LinkToRoot | GuardianWords/GuardianWords.py:107-109 | one child of the root: only its fail link changes, to the root, and it joins the queue and the visited nodes |
| AhoCorasick.Automaton.ExpandNode | GuardianWords/GuardianWords.py:113-133 | one dequeued node: each of its children is linked and queued, so every node expanded so far has all its children visited, and the unvisited nodes shrink unless it has no children |
| AhoCorasick.Automaton.BfsRound | GuardianWords/GuardianWords.py:112-133 | one round of the breadth-first loop keeps the loop's invariant: nodes are dequeued in order of depth, so every node no deeper than the current one already has its longest fail link when a child of the current one is linked |
| AhoCorasick.Follow | GuardianWords/GuardianWords.py:147-152 | one step of the scan: the node reached spells a suffix of the text read so far, and is the root or has a child for the character |
| AhoCorasick.Automaton.Search | GuardianWords/GuardianWords.py:137-162 | an empty text, an empty lexicon or an unbuilt automaton gives no matches and builds nothing; otherwise the result is the scan's, and every word reported is a lexicon word occurring in the text; on a freshly built automaton the result is exactly `Reported` of its words over the text |
| AhoCorasick.ScanSoundFromRoot | GuardianWords/GuardianWords.py:145-160 | every word a scan from the root reports is a lexicon word contained in the text |
| AhoCorasick.ScanReportsLeadingWord | GuardianWords/GuardianWords.py:150-156 | a text that starts with a lexicon word reports that word; so a text equal to a word reports it |
| AhoCorasick.FollowExact | GuardianWords/GuardianWords.py:147-153 | on longest fail links, each character moves the scan to the node spelling the longest suffix, among all the nodes' strings, of what has been read |
| AhoCorasick.ReportsExact | GuardianWords/GuardianWords.py:132-160 | a node of a freshly built table records its own word, if it is terminal, and its fail target's word, if that is terminal, and no other word |
| AhoCorasick.ScanExact | GuardianWords/GuardianWords.py:145-162 | a scan of a freshly built table reports exactly what the reference scan `ScanSpec` reports from the state the current node spells |
| AhoCorasick.PathsArePrefixes | GuardianWords/GuardianWords.py:84-100 | the nodes of the trie spell exactly the empty string and the prefixes of the held words |
| AhoCorasick.Refresh | GuardianWords/GuardianWords.py:304-311 | the automaton is rebuilt from nothing; its words are exactly the non-empty lower-cased local words, so case variants count once; it is built, every fail link is the longest one, and every output list is exactly its fail target's word |
| MatchSpec.LongestInSpec | GuardianWords/GuardianWords.py:119-130 | `LongestIn`, the reference for where a fail link or a scan step lands, is a suffix of its argument, is one of the known strings or empty, and no longer suffix is known |
| MatchSpec.NothingWithoutWords | GuardianWords/GuardianWords.py:139-140 | with no words, the reference scan reports nothing |
| MatchSpec.ReportedAreWords | GuardianWords/GuardianWords.py:145-162 | the reference scan reports only lexicon words |
| MatchExamples.OverlapExample | GuardianWords/GuardianWords.py:102-162 | over {"ab", "cab"}, "xcabx" reports both words |
| MatchExamples.UshersExample | GuardianWords/GuardianWords.py:102-162 | over {"he", "she", "his", "hers"}, "ushers" reports "he", "she" and "hers" |
| MatchExamples.NestedExample | GuardianWords/GuardianWords.py:102-162 | over {"c", "bc", "abc"}, "abc" reports "abc" and "bc" and not "c": the node for "abc" fails to "bc" and carries only that word |
| Violations.Put | GuardianWords/GuardianWords.py:580-582 | the entry is stored under (group, user); the group key exists afterwards; no group is left with an empty dictionary |
| Violations.Delete | GuardianWords/GuardianWords.py:556-565 | the entry is gone; an absent entry changes nothing; the group key survives only if other users remain in it |
| Violations.PutElsewhere | GuardianWords/GuardianWords.py:580-582 | storing under one key leaves every other entry as it was |
| Violations.DeleteElsewhere | GuardianWords/GuardianWords.py:561-564 | deleting under one key leaves every other entry as it was |
| Violations.DeleteAfterPut | GuardianWords/GuardianWords.py:556-565 | storing an entry and then resetting it leaves the table as resetting alone would |
| Violations.KeepLast | GuardianWords/GuardianWords.py:530-531 | the history is cut to its last `max_violations` entries, and a limit of 0 keeps the whole history |
| Violations.Bumped | GuardianWords/GuardianWords.py:493-536 | the count restarts at 1 when there is no record, or when `now - first_time` exceeds the window (strictly); otherwise it grows by exactly one; the window is then open at `now` |
| Violations.BumpedHistory | GuardianWords/GuardianWords.py:518-531 | the new offence, with its first 100 characters, is the last history entry; the history is the old one (none after a restart) plus that entry, cut to the limit |
| Violations.BanRightAfterBump | GuardianWords/GuardianWords.py:538-554 | `ShouldBan`: asked right after an update, the ban test holds exactly when the returned count reaches the maximum |
| Violations.HistoryWithinCount | GuardianWords/GuardianWords.py:521-531 | a record never holds more history entries than the offences it counts |
| Violations.BumpAll | GuardianWords/GuardianWords.py:493-536 | after a sequence of offences, a record exists, stamped with the last offence's time |
| Violations.CountsOffencesInWindow | GuardianWords/GuardianWords.py:513-521 | offences that all fall in the window the first one opened are all counted, from that first time |
| Violations.BanAfterMaxOffences | GuardianWords/GuardianWords.py:550-552 | reaching the maximum inside one window makes the ban test hold at the last offence |
| Violations.RestartAfterWindow | GuardianWords/GuardianWords.py:515-521 | `Restarts`: an offence after the window closed counts 1, whatever came before |
| Violations.Purge | GuardianWords/GuardianWords.py:954-962 | `CoolingDown` and `Purge`: a live mute entry stays; an expired one is removed, with its group when that empties it |
| Guardian.Closing | GuardianWords/GuardianWords.py:370 | the lazy `\[.*?\]` regex finds the nearest `]` on the same line |
| Guardian.RemoveCodes | GuardianWords/GuardianWords.py:370 | removing CQ codes never makes the text longer |
| Guardian.RemoveCodesFixes | GuardianWords/GuardianWords.py:370 | a text without codes is unchanged by removing them |
| Guardian.RemoveCodesLeavesNone | GuardianWords/GuardianWords.py:370 | no CQ code survives one removal pass |
| Guardian.RemoveCodesKeeps | GuardianWords/GuardianWords.py:370 | a character that does not open a code closed later on its line is kept, and the text after it is handled on its own |
| Guardian.ClosingAfter | GuardianWords/GuardianWords.py:370 | a `[` followed by text without `]` or line break and then `]` is closed at exactly that `]` |
| Guardian.RemoveCodesDrops | GuardianWords/GuardianWords.py:370 | a whole code `[x]` (no `]` or line break in `x`) is removed, and the text after it is handled on its own |
| Guardian.ExtractText | GuardianWords/GuardianWords.py:365-373 | the extracted text is stripped and holds no CQ code |
| Guardian.ExtractTextIdempotent | GuardianWords/GuardianWords.py:365-373 | extracting from an extracted text changes nothing |
| Guardian.ExtractTextAfterCode | GuardianWords/GuardianWords.py:365-373 | a message of one code followed by a stripped, code-free text yields exactly that text (`[CQ:at,qq=1]ok` yields `ok`) |
| Guardian.LoadedWords | GuardianWords/GuardianWords.py:291-295 | every loaded word is non-empty, stripped and does not start with '#' |
| Guardian.LoadSavedWords | GuardianWords/GuardianWords.py:281-320 | saving a set of such words and loading the lines back gives the same set |
| Guardian.HashWordNotReloaded | GuardianWords/GuardianWords.py:294 | a word added as "#ad" is lost on reload |
| Guardian.ParseWords | GuardianWords/GuardianWords.py:631-680 | `ParseCommand`: an empty command shows the usage; each alias of enable, disable and status is recognised |
| Guardian.ParseWordCommands | GuardianWords/GuardianWords.py:707-736 | "添加敏感词 w" and "删除敏感词 w" name the stripped word w |
| Guardian.ParseWhitelistCommands | GuardianWords/GuardianWords.py:763-790 | "添加白名单 u" and "删除白名单 u" name the stripped argument u |
| Guardian.ParseResetCommand | GuardianWords/GuardianWords.py:815-816 | "重置用户违规 u" names the stripped argument u |
| Guardian.ParseViewCommand | GuardianWords/GuardianWords.py:833-834 | "查看违规记录 u" names the stripped argument u |
| Guardian.ParseSetCommand | GuardianWords/GuardianWords.py:876-880 | "设置 p v" names parameter p and value v |
| Guardian.ParseSetPrefix | GuardianWords/GuardianWords.py:876-880 | a "设置 " command takes the first two whitespace-separated words, and with fewer than two it is incomplete |
| Guardian.ParseSetIncomplete | GuardianWords/GuardianWords.py:876-878 | "设置" with a single argument is incomplete |
| Guardian.DeleteIgnoresCase | GuardianWords/GuardianWords.py:413-416 | `DeleteSucceeded`: the tolerated delete errors are recognised whatever their case |
| Guardian.TimeoutsDiffer | GuardianWords/GuardianWords.py:409-417 | `DeleteSucceeded`: a delete whose wait times out fails, but an error text saying "Timeout" counts as success |
| Guardian.CommandBeforeEnablement | GuardianWords/GuardianWords.py:618-627 | a command from a non-admin gets only the admin-only notice; an admin's complete command is handled with one reply and leaves the mute table alone, even in a group where detection is off |
| Guardian.ExecuteKeepsCooldowns | GuardianWords/GuardianWords.py:646-918 | `Execute`: no command changes the mute table |
| Guardian.WordCommandsInverse | GuardianWords/GuardianWords.py:707-760 | adding a new word adds it; adding it again changes nothing; removing it restores the previous state |
| Guardian.WhitelistCommandsInverse | GuardianWords/GuardianWords.py:763-812 | the same for a numeric whitelist entry |
| Guardian.StatusAfterToggle | GuardianWords/GuardianWords.py:647-681 | status after enable reports enabled, and after disable reports disabled |
| Guardian.IncompleteSetIgnored | GuardianWords/GuardianWords.py:876-945 | an admin's one-argument "设置" falls through to moderation, which ignores admins, so nothing happens |
| Guardian.ExemptSendersIgnored | GuardianWords/GuardianWords.py:936-957 | `Enforce`: a non-command message is ignored, with the state untouched, when its group is not enabled, its sender is an admin or whitelisted, or the sender's mute has not expired |
| Guardian.StepExemptIgnored | GuardianWords/GuardianWords.py:936-957 | `Step`: for such a sender, a message that is not a command is ignored with the state untouched; a sender who is not an admin leaves the state untouched even with a command |
| Guardian.ClassifierOnlyWhenForbidden | GuardianWords/GuardianWords.py:969 | `ApiWords`: a classifier reply whose status is not "forbidden" contributes no words |
| Guardian.ActsOnlyOnMatches | GuardianWords/GuardianWords.py:936-979 | `Enforce`: a message is acted on exactly when it passes the gate and some local or classifier word matched; the first action is always the recall |
| Guardian.FailedRecallStops | GuardianWords/GuardianWords.py:979-985 | when the recall fails: no record update, no warning, no mute |
| Guardian.MuteAtThreshold | GuardianWords/GuardianWords.py:1020-1022 | a mute is requested exactly when the message is acted on, the recall succeeded, and the updated count reaches the maximum |
| Guardian.SanctionMute | GuardianWords/GuardianWords.py:1020-1034 | `Sanction`: after the count is updated, the mute is requested exactly when `check_should_ban` holds; a successful mute sets the mute time and drops the record, and otherwise nothing changes |
| Guardian.PenalizeAsksMute | GuardianWords/GuardianWords.py:977-1022 | `Penalize`: a message with words found is always acted on, and the mute is requested exactly when the recall succeeded and the updated record calls for a ban |
| Guardian.PenalizeMute | GuardianWords/GuardianWords.py:1020-1034 | after a mute that succeeds, the user's mute expires at `now + ban_duration` and the record is gone; when the mute fails, the updated record stays; the mute table changes only after a successful mute |
| Guardian.PenalizeOthers | GuardianWords/GuardianWords.py:979-1034 | the penalty touches no other user's record or mute entry |
| Guardian.MuteStartsCooldown | GuardianWords/GuardianWords.py:1021-1034 | a successful mute records the expiry time and resets the record |
| Guardian.FailedMuteKeepsRecord | GuardianWords/GuardianWords.py:1022-1034 | a failed mute keeps the updated record |
| Guardian.CooldownOnlyOnMute | GuardianWords/GuardianWords.py:1021-1034 | without a successful mute, the user's mute entry is either unchanged or purged as expired |
| Guardian.OthersUntouched | GuardianWords/GuardianWords.py:936-1044 | `Enforce`: moderating one user's message changes no other user's record or mute entry |
| Guardian.StepOthersUntouched | GuardianWords/GuardianWords.py:936-1044 | `Step`: one event changes no other user's record or mute entry, unless it runs an admin's command (the reset command clears the user it names) |
| Guardian.MutedUserSkipped | GuardianWords/GuardianWords.py:954-957 | `Enforce`: after a successful mute, that user's further ordinary messages in that group are ignored until the mute expires |
| Guardian.StepMutedUserSkipped | GuardianWords/GuardianWords.py:954-957 | `Step`: after an event whose handling muted its sender successfully, every later event of that user in that group leaves the state alone until the mute expires, and one that is not a command is ignored |
| GuardPlugin.ReadList | GuardianWords/GuardianWords.py:291-295 | the loop over the file's lines collects exactly the loaded words |
| GuardPlugin.Guard.constructor | GuardianWords/GuardianWords.py:181-211 | the state loads from the stored files: the words and the whitelist as filtered lines, an automaton built over the words when the word file exists, and no mute entries |
| GuardPlugin.Guard.CheckLocal | GuardianWords/GuardianWords.py:375-382 | the lower-cased text is searched; the words found are exactly `Reported` of the lower-cased local words over the lower-cased text, so each is a lower-cased local word contained in the lower-cased text |
| GuardPlugin.Guard.LocalMatchesExact | GuardianWords/GuardianWords.py:375-382 | the local check of the plugin's state equals the reference scan over its local words |
| GuardPlugin.Guard.UpdateRecord | GuardianWords/GuardianWords.py:493-536 | the record table is updated in place as `Bumped` says, and the new count is returned |
| GuardPlugin.Guard.ResetRecord | GuardianWords/GuardianWords.py:556-565 | the record table becomes `Delete` of the old one |
| GuardPlugin.Guard.BanUser | GuardianWords/GuardianWords.py:567-587 | the result is whether the mute succeeded, and the expiry is stored only then |
| GuardPlugin.Guard.RunCommand | GuardianWords/GuardianWords.py:646-918 | the fields after the command, and its reply, are those of `Execute`; the automaton stays equal to a rebuild over the word list |
| GuardPlugin.Guard.Toggle | GuardianWords/GuardianWords.py:647-679 | enable sets the group's flag; disable removes it, and changes nothing when it was absent; the reply and fields are those of `Execute` |
| GuardPlugin.Guard.EditWords | GuardianWords/GuardianWords.py:707-760 | the word commands update the local words as `Execute` says and rebuild the automaton, which stays equal to a rebuild over the new words |
| GuardPlugin.Guard.EditWhitelist | GuardianWords/GuardianWords.py:763-812 | the whitelist commands accept only digit strings and update the whitelist as `Execute` says |
| GuardPlugin.Guard.Configure | GuardianWords/GuardianWords.py:883-909 | a known setting with a digit value is stored and the rest are refused, as `Execute` says |
| GuardPlugin.Guard.Moderate | GuardianWords/GuardianWords.py:936-1044 | the fields after an ordinary message, and the effects, are those of `Enforce` |
| GuardPlugin.Guard.Punish | GuardianWords/GuardianWords.py:977-1036 | the recall, the record update and the sanction are those of `Penalize` |
| GuardPlugin.Guard.Discipline | GuardianWords/GuardianWords.py:1020-1036 | the warning, the mute and the reset are those of `Sanction` |
| GuardPlugin.Guard.OnMessage | GuardianWords/GuardianWords.py:589-1044 | the whole handler: fields and effects are those of `Step` |
| Recall.CodeAt | BotMessageManager/BotMessageManager.py:65-67 | a match of `<tag>(\d+)\]` at an index captures a digit string, and the tag, the digits and `]` occur there |
| Recall.CodeAtFinds | BotMessageManager/BotMessageManager.py:65-67 | conversely, where the tag, a digit string and `]` occur, that digit string is captured |
| Recall.FirstCode | BotMessageManager/BotMessageManager.py:65-67 | `re.search`: a found capture is a digit string from some matching position; when none is found, no position matches |
| Recall.FirstCodeLeftmost | BotMessageManager/BotMessageManager.py:65-67 | `re.search` returns the leftmost match: the capture found is the one at a position before which no position matches |
| Recall.AllCodes | BotMessageManager/BotMessageManager.py:97-99 | `re.findall`: exactly the captures of the matching positions |
| Recall.FirstReply | BotMessageManager/BotMessageManager.py:57-60 | a reply segment exists exactly when one is found, and the one found is the first |
| Recall.GetRepliedId | BotMessageManager/BotMessageManager.py:56-69 | the loop returns the first reply segment's id, else the first raw `[CQ:reply,id=N]`, else nothing |
| Recall.RawReplyLeftmost | BotMessageManager/BotMessageManager.py:65-67 | without a reply segment, the id is the capture of the leftmost raw `[CQ:reply,id=N]`, and there is none exactly when no position matches |
| Recall.ReplySegmentFirst | BotMessageManager/BotMessageManager.py:58-60 | `RepliedId`: a reply segment without an id ends the search, and the raw text is not consulted |
| Recall.RawCodeExample | BotMessageManager/BotMessageManager.py:62-67 | the raw text "[CQ:reply,id=42]" gives "42" |
| Recall.TooOldInSeconds | BotMessageManager/BotMessageManager.py:71-85 | `TooOld`: no time means not too old; otherwise "too old" holds exactly when `now - t > 60 * max_minutes` |
| Recall.ExtractCandidates | BotMessageManager/BotMessageManager.py:87-118 | a string is returned exactly when it was gathered and is non-empty, not the bot, not "0" and at least 5 characters long; there are no duplicates |
| Recall.MentionsCount | BotMessageManager/BotMessageManager.py:107-110 | a mention with an empty id adds nothing; a non-empty kept one is a candidate |
| Recall.TriggerFallback | BotMessageManager/BotMessageManager.py:120-158 | `IsTrigger`: without a usable replied-to sender, the user triggered the message exactly when they are a kept candidate of its non-empty content; the bot never is |
| Recall.TriggerByRepliedSender | BotMessageManager/BotMessageManager.py:123-137 | `IsTrigger`: a readable replied-to sender is compared with the user, and nothing else is consulted |
| Recall.Classify | BotMessageManager/BotMessageManager.py:287-299 | a failed delete is classified into one of the four answers |
| Recall.ClassifyOrder | BotMessageManager/BotMessageManager.py:290-297 | the first match wins: an earlier recall beats a permission problem; "timeout" alone means expired |
| Recall.BarePhraseNotRecognised | BotMessageManager/BotMessageManager.py:290-291 | "already recalled" without "message" falls through to the generic answer |
| Recall.DeleteOnlyWhenAllowed | BotMessageManager/BotMessageManager.py:215-318 | `Decide`: a deletion is attempted exactly when the command is well formed and either the fetch raised, or the target is the bot's own and the user is an admin or a trigger at most 2 minutes past |
| Recall.AdminsSkipChecks | BotMessageManager/BotMessageManager.py:257-277 | for an admin the decision depends on neither the trigger test nor the message's age |
| Recall.OnlyBotMessages | BotMessageManager/BotMessageManager.py:249-256 | a fetched message not sent by the bot is never deleted |
| Qishui.RemoveTags | QishuiMusic/QishuiMusic.py:103-105 | one left-to-right removal pass never lengthens the text and adds no character |
| Qishui.RemoveNothing | QishuiMusic/QishuiMusic.py:103-105 | a text without tags is unchanged by the pass |
| Qishui.RemoveStamps | QishuiMusic/QishuiMusic.py:102-105 | removing both tag kinds never lengthens a line and adds no character |
| Qishui.CleanLine | QishuiMusic/QishuiMusic.py:102-107 | a cleaned line is stripped and holds only characters of the input line |
| Qishui.CleanedLinesAppend | QishuiMusic/QishuiMusic.py:99-110 | `CleanedLines`: lines are cleaned one by one, in order: cleaning two stretches of input is cleaning each and concatenating |
| Qishui.CleanedLinesFrom | QishuiMusic/QishuiMusic.py:101-109 | `CleanedLines`: each kept line is non-empty, stripped, and the cleaned form of an input line |
| Qishui.Cleaned | QishuiMusic/QishuiMusic.py:95-96 | None or empty lyrics clean to "" |
| Qishui.CleanLyrics | QishuiMusic/QishuiMusic.py:90-110 | the loop's result is the kept lines joined with newlines |
| Qishui.OutputLines | QishuiMusic/QishuiMusic.py:99-110 | splitting the output again gives exactly the kept lines: none empty, all stripped, each from an input line |
| Qishui.UntaggedLine | QishuiMusic/QishuiMusic.py:102-107 | a line without tags is only stripped |
| Qishui.StampRemoved | QishuiMusic/QishuiMusic.py:103 | "[12,345]la" cleans to "la" |
| Qishui.SinglePass | QishuiMusic/QishuiMusic.py:103 | one pass over "[[1,2]3,4]" leaves "[3,4]", the tag that only formed once the inner one was removed |
| Qishui.Preview | QishuiMusic/QishuiMusic.py:292 | a text of at most 1500 characters is shown whole; a longer one as exactly 1503 characters ending in "..."; the preview always starts with the text's first 1500 characters |
| Qishui.LyricsPreview | QishuiMusic/QishuiMusic.py:288-292 | a preview is produced exactly when the cleaned lyrics are non-empty, and it is non-empty and at most 1503 characters |
| Qishui.LinkAt | QishuiMusic/QishuiMusic.py:12 | a link starts exactly where the https or http prefix occurs with a non-whitespace character after it; it takes every character up to the next whitespace or the end, none of them whitespace |
| Qishui.FindLink | QishuiMusic/QishuiMusic.py:239 | a found link is the link at some position; there is none exactly when no position starts one |
| Qishui.FindLinkLeftmost | QishuiMusic/QishuiMusic.py:239 | `re.search` takes the leftmost link: the link found starts at a position before which no position starts one |
| Qishui.MusicPlugin.constructor | QishuiMusic/QishuiMusic.py:20-27 | the whitelist loads as the non-empty stripped lines |
| Qishui.MusicPlugin.OnMessage | QishuiMusic/QishuiMusic.py:193-250 | the new whitelist and the answer are those of `Handle` |
| Qishui.WhitelistCommands | QishuiMusic/QishuiMusic.py:209-235 | `Handle`: an add lists the group and a remove unlists it; no other group's membership changes; re-adding or re-removing is reported as such |
| Qishui.AddIdempotent | QishuiMusic/QishuiMusic.py:214-234 | adding twice is adding once; adding then removing leaves the group unlisted |
| Qishui.NoPermissionNoChange | QishuiMusic/QishuiMusic.py:211-227 | without permission the whitelist never changes |
| Qishui.ListedGroupGate | QishuiMusic/QishuiMusic.py:237-243 | in a listed group, a message with a link gets only the notice, one without is not handled, and nothing is parsed |
| Qishui.ParseOnlyLinks | QishuiMusic/QishuiMusic.py:245-250 | parsing starts only in an unlisted group, and for the leftmost link in the message |

Three behaviours of the code that the model states:

- `build_fail` (GuardianWords/GuardianWords.py:132-133) appends to a node's output only the word of its fail target, and only when that target is an end node. So over {"c", "bc", "abc"} a search of "abc" reports "abc" and "bc" and not "c" (`MatchExamples.NestedExample`).
- `save_local_words` (GuardianWords/GuardianWords.py:313-318) writes every word, and the loader (GuardianWords/GuardianWords.py:293-294) skips lines starting with '#'. So a word added as "#ad" is gone after a reload (`Guardian.HashWordNotReloaded`).
- The recall error classification (BotMessageManager/BotMessageManager.py:290-291) tests the lower-cased error text for the phrase "message already recalled" or for "已被撤回" (`Recall.BarePhraseNotRecognised`).

These behaviours of the code are modelled as written:

- a failed mute keeps the updated record;
- "设置 禁言时长 N" stores the value but answers with the failure message;
- a one-argument "设置" falls through to moderation;
- the mute table is purged only for senders who pass the enablement, admin and whitelist checks.

## Left out

- AhoCorasick.Automaton.Search: the result is a set; the source returns `list(matched)`, whose order follows Python's set iteration and is not modelled.
- Recall.ExtractCandidates: the order of the returned list is not stated. It follows Python's iteration order of a set, which the model does not fix.
- The running time of the search (linear in the text) is not modelled. Verification concerns results only.
- The classifier request (`check_api_sensitive_word`), the music API fetch with its retries and sleeps, the audio download, the size check and the `ffmpeg` conversion are left out: they are network or process I/O. Their outcomes are inputs, or the model ends at `Parse(link)`.
- Message text and formatting of replies and warnings (emoji, counts in text, the help texts) are left out; replies are datatype values carrying their data.
- Delayed deletion of the bot's own replies, the background threads and `asyncio` tasks are concurrency and timers, and are left out.
- File persistence is left out: files arrive as their lines, and saving is not modelled. The admin lists are a given set, and `_perm` is a boolean input. Only the line filters of the loaders are modelled.
- `time.time()` is a float; the model uses an integer `now` for the current time, and the same `now` for the ban test and for the mute expiry.
- `str.lower` is modelled on ASCII letters only, and `\d` and `isdigit` on ASCII digits only. Python's Unicode case mapping and digit classes are not modelled.
- The digit-run search `\b([1-9]\d{4,10})\b` of the candidate extraction is a function parameter (`runs`). The rest of the extraction and its filter are modelled.
- Segment and message shapes (attribute objects against dictionaries, `isinstance` tests) are one datatype each. A missing attribute is `None`, and an empty group id stands for a missing or falsy one. The recall event's `str(event.message)` is an input string.
- The outer `try/except` of the recall handler, which answers `True` on any unexpected exception, is left out. Any exception from the reply sends is also left out.
