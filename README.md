# Eolie ad-block store and browsing history, modelled in Dafny

Eolie is a GTK web browser. This project models two of its SQLite-backed stores.

**`DatabaseAdblock`** (`eolie/database_adblock.py`) keeps the ad-blocking rules. It has four tables:
- blocked host names (`adblock`);
- URI regexes (`adblock_re`);
- URI regexes bound to one domain (`adblock_re_domain`);
- CSS element-hiding rules (`adblock_css`).

It also keeps a cache of URIs already found allowed. An update is meant to run at most once every two days (see Findings). It downloads five hosts-file lists, EasyList, and the EasyList variant for the user's language.

An update pass works in three steps:
1. It stamps every rule it (re)reads with the pass's start time.
2. It compiles Adblock Plus patterns into Python regular expressions.
3. When the last list is done, it deletes every row the pass did not stamp, empties the cache and writes the pass time with `PRAGMA db_mtime`. SQLite ignores that pragma (see Findings); the model still keeps the pass time in `dbMtime`, and only `UpdateIntended` reads it back.

The pass stops at the next line when `stop()` cancels it. Queries answer four questions:
- Is a host blocked?
- Is a URI blocked? The answer consults the compiled union of all regexes and the domain regexes of the page's host.
- Which stylesheet hides elements on every page?
- Which stylesheet hides elements on a given page?

**`DatabaseHistory`** (`eolie/database_history.py`) keeps one row per visited URI and a second table of access times. It covers:
- adding a visit, or re-visiting a known URI;
- removing rows and clearing access times before or after a time;
- queries by time, for a day, for empty rows and for rows modified since a sync time;
- the "opened page" flag used to restore a session;
- popularity reset;
- the scoring and de-duplication that end `search`.

**Modules:**
- `Wrappers`: Option.
- `Strings`: Python string operations used by the source: `split`, `splitlines`-by-`\n`, `strip`, `rstrip`, `find`, `lower`, `replace`.
- `Url`: `urlparse`, `remove_www` and `re.search` as function parameters.
- `Tables`: a keyed table whose rows carry the pass stamp; insert-or-restamp, and deletion of unstamped rows.
- `RuleCompiler`: `__rule_to_regex`, the hosts-line parser and the Adblock Plus line classifier.
- `AdblockRules`: what a whole list, a whole pass and a CSS query do, as functions.
- `Adblock`: the `DatabaseAdblock` class.
- `History`: the tables as functions, and the `DatabaseHistory` class.
- `Search`: the scoring and de-duplication of `search`.

The model keeps these behaviours of the code as they are, though the operations' names and doc comments lead a reader to expect otherwise:
- `is_uri_blocked` does not consult the host table;
- the allowed-URI cache is emptied only when a pass completes;
- the compiled regex union is built once and never rebuilt;
- CSS rows are plain inserts, so a pass appends a second copy of a rule it saw before;
- a CSS rule listing several domains is served on none of them, and a rule negating a domain is still served on it (see Findings);
- `update` starts a pass on every call once the clock is two days past the epoch (see Findings);
- `search` gives its netloc bonus by the truthiness of `find` (see Findings);
- the pass stamp is taken once, when the store is opened (eolie/database_adblock.py:120), so a second `update` in the same run keeps every row the first one stamped, whether or not its lists still hold it (SameEpochKeepsEarlierPass).

Each method of a class is proved against a function of the tables. The functions carry the properties:
- a pass only adds or restamps rows until the final prune;
- after the prune, every row carries the pass stamp; when no row carried the stamp before the pass, exactly the keys and CSS rules the lists store remain, so a rule dropped upstream is evicted;
- keys stay unique;
- `add` then `get_id` finds the row;
- `get` answers newest first, and its answer is a permutation of the matching rows.

## Model

| member | source | states |
|---|---|---|
| Tables.Keys | eolie/database_adblock.py:315-371 | the key set of a table holds exactly the keys of its rows, the column every `__add_*` looks up before deciding between insert and update |
| Tables.Restamp | eolie/database_adblock.py:329-332 | the UPDATE branch of `__add_*`: same length, the row with the key gets the pass stamp, every other row unchanged |
| Tables.HasKey | eolie/database_adblock.py:321-325 | the `SELECT … WHERE key=?` then `fetchone()` test; HasKeyIsKey proves it finds a row exactly for the keys of the table |
| Tables.HasKeyIsKey | eolie/database_adblock.py:321-325 | the `SELECT ... fetchone() is None` test agrees with membership of the key in the table's key set, both directions |
| Tables.UpsertFacts | eolie/database_adblock.py:315-332 | insert-or-restamp: afterwards the key is present with the pass stamp; a new key is appended and an existing one restamped in place |
| Tables.Upsert | eolie/database_adblock.py:315-332 | the select-then-insert-or-update of `__add_netloc`, `__add_regex` and `__add_regex_domain`; its meaning is stated by UpsertFacts, UpsertKeepsUnique and UpsertSurvivesPrune |
| Tables.UpsertKeepsUnique | eolie/database_adblock.py:315-332 | insert-or-restamp never creates a second row for a key |
| Tables.UpsertGrows | eolie/database_adblock.py:315-332 | insert-or-restamp loses no key and keeps keys unique |
| Tables.Prune | eolie/database_adblock.py:532-539 | `DELETE ... WHERE mtime != pass`: every remaining row carries the pass stamp, every stamped row remains, nothing new appears |
| Tables.StampedKeys | eolie/database_adblock.py:532-539 | the keys the pass stamped are a subset of all keys |
| Tables.PruneKeys | eolie/database_adblock.py:532-539 | after the prune the key set is exactly the stamped keys, and uniqueness is kept |
| Tables.PruneUnique | eolie/database_adblock.py:532-539 | a pruned table has unique keys when the table had them |
| Tables.PruneIdempotent | eolie/database_adblock.py:532-539 | pruning twice with the same stamp is pruning once |
| Tables.PruneAllStamped | eolie/database_adblock.py:532-539 | a table whose every row carries the stamp is unchanged by the prune |
| Tables.PruneSnoc | eolie/database_adblock.py:532-539 | a row appended after the others survives the `DELETE … WHERE mtime!=?` exactly when it carries the epoch, after the surviving earlier rows |
| Tables.UpsertSurvivesPrune | eolie/database_adblock.py:315-332 | a key saved during the pass is exactly the one key added to the rows that survive the pass's prune |
| RuleCompiler.Escape | eolie/database_adblock.py:384 | escaping the regex special characters never shortens the rule |
| RuleCompiler.EscapeChar | eolie/database_adblock.py:384 | one character of the escape: a backslash before each of `.$+?{}()[]\`, the character alone otherwise; UnescapeEscape inverts it |
| RuleCompiler.Unescape | eolie/database_adblock.py:384 | the independent inverse the escape is checked against: drops the backslash before an escaped special character |
| RuleCompiler.UnescapeEscape | eolie/database_adblock.py:384 | the escape is invertible: removing the added backslashes gives back the rule |
| RuleCompiler.ReplaceChar | eolie/database_adblock.py:387-388 | `str.replace` of a character that does not occur leaves the text unchanged |
| RuleCompiler.ReplaceCharConcat | eolie/database_adblock.py:387-388 | replacing a character distributes over concatenation |
| RuleCompiler.ReplaceWildcards | eolie/database_adblock.py:386-388 | the loop over the replacement table: `^` becomes the separator class, then `*` becomes `.*`; ReplaceWildcardsConcat and StagesArePerCharacter state what it does |
| RuleCompiler.Translate | eolie/database_adblock.py:76-78 | the per-character translation never drops a character |
| RuleCompiler.TranslateAll | eolie/database_adblock.py:384-388 | translating a rule never shortens it |
| RuleCompiler.ReplaceWildcardsConcat | eolie/database_adblock.py:387-388 | the `^` and `*` replacements distribute over concatenation |
| RuleCompiler.ReplaceWildcardsChar | eolie/database_adblock.py:384-388 | escaping then replacing one character gives its translation |
| RuleCompiler.StagesArePerCharacter | eolie/database_adblock.py:384-388 | escaping followed by the `^`/`*` replacements equals translating character by character; the replacement text inserted for `^` is never re-escaped and `*` never sees an escaped character |
| RuleCompiler.PrependKeepsNoStrayPipe | eolie/database_adblock.py:396 | a rewritten tail with no stray `\|` keeps that property when a character, or a `\|` followed by `$`, is put in front |
| RuleCompiler.EscapedPipeKeepsNoStrayPipe | eolie/database_adblock.py:396 | putting an escaped `\|` in front of a tail with no stray pipe keeps the property |
| RuleCompiler.RewriteStrayPipes | eolie/database_adblock.py:396 | after `re.sub("(\|)[^$]", r"\|", ...)` every `\|` is either escaped or followed by `$`; the first character and a trailing `$` are kept |
| RuleCompiler.StrayPipeDropsNextCharacter | eolie/database_adblock.py:396 | as written, the substitution consumes the character after a stray pipe: the text `a`, pipe, `b` becomes `a`, backslash, pipe |
| RuleCompiler.PipeFreePrefixUnchanged | eolie/database_adblock.py:396 | a prefix without pipes passes through the substitution unchanged |
| RuleCompiler.SeparatorClassSurvives | eolie/database_adblock.py:396 | the separator class inserted for `^` passes through the stray-pipe rewrite unchanged |
| RuleCompiler.AnchorPipes | eolie/database_adblock.py:390-394 | the end and start anchors never yield an empty pattern |
| RuleCompiler.IsRegexLiteral | eolie/database_adblock.py:381-382 | a rule between slashes, which the compiler returns without its slashes |
| RuleCompiler.RuleToRegex | eolie/database_adblock.py:373-400 | `None` exactly for the empty rule (the IndexError path); a `/.../` rule is returned without its slashes; any other rule compiles to a pattern with no stray pipe |
| RuleCompiler.TranslateEnds | eolie/database_adblock.py:384-388 | a translated character starts with `\|` exactly when the character is `\|`, ends with `\|` exactly then too, and never starts with `^` |
| RuleCompiler.TranslateAllEnds | eolie/database_adblock.py:384-388 | the translated rule starts and ends with `\|` exactly when the rule does, and never starts with `^` |
| RuleCompiler.AnchorPipesEnds | eolie/database_adblock.py:390-394 | after anchoring, the pattern starts with `^` exactly when the translation started with `\|`, never starts with `\|`, and a trailing `\|` became `$` |
| RuleCompiler.PipeAnchors | eolie/database_adblock.py:373-400 | for a rule that is not a `/.../` literal: the regex starts with `^` exactly when the rule starts with `\|`, and a trailing `\|` becomes a trailing `$` |
| RuleCompiler.HostsLineNetlocFacts | eolie/database_adblock.py:414-421 | a hosts line yields a host exactly when it does not start with `#` and holds a space, tab or `@`; a yielded host has no space, no carriage return and no `#` |
| RuleCompiler.HostsLineNetloc | eolie/database_adblock.py:414-421 | one hosts-file line: skipped after `#`, otherwise the second field after the first space-or-tab, cleaned; HostsLineNetlocFacts and HostsEntry state it in both directions |
| RuleCompiler.JoinStartsWithHead | eolie/database_adblock.py:416-417 | every character of the first piece occurs in the joined line |
| RuleCompiler.HostsEntry | eolie/database_adblock.py:414-421 | an `address host` line for a clean host yields exactly that host |
| RuleCompiler.Whitelist | eolie/database_adblock.py:448-455 | every character of every non-negated domain occurs in the whitelist; its exact left-to-right construction is `WhitelistSnoc` |
| RuleCompiler.Blacklist | eolie/database_adblock.py:448-455 | the blacklist is empty exactly when no domain is negated, and otherwise is `@`-delimited |
| RuleCompiler.WhitelistSnoc | eolie/database_adblock.py:451-455 | the whitelist is the concatenation of the non-negated domains in order, with no separator: one more domain appends itself unless it starts with `~` |
| RuleCompiler.BlacklistSnoc | eolie/database_adblock.py:451-453 | the blacklist is the concatenation, in order, of `@x@` for each negated domain `~x` |
| RuleCompiler.CssDomainRuleFacts | eolie/database_adblock.py:443-460 | a line that splits into two parts at `##` yields a CSS rule whose name is the part after the `##` and holds no `##`; any other split raises |
| RuleCompiler.CssDomainRule | eolie/database_adblock.py:443-460 | the rule a `domains##selector` line inserts, or a raise when `##` does not split it in two; CssDomainRuleFacts states it |
| RuleCompiler.AnchoredUri | eolie/database_adblock.py:473-474 | the URI built for a `\|\|` rule starts with `http://` |
| RuleCompiler.AbpRuleOf | eolie/database_adblock.py:462-483 | a host rule exactly for `\|\|host^`, with the host between; a null-regex error exactly for `\|\|`; no rule exactly for the empty line; a domain regex only for `\|\|` rules, with a non-empty domain |
| RuleCompiler.AnchoredRegexRule | eolie/database_adblock.py:468-479 | a `||` rule not ending in `^` is the NULL-regex raise, a domain regex or a plain regex, exactly as its regex and parsed domain say |
| RuleCompiler.ClassifyAbp | eolie/database_adblock.py:497-508 | each branch of the line dispatch with both directions: skipped lines (`-abp-`, `$`, `!`, `[`), default CSS (`##` prefix, name after it), domain CSS, ignored exception rules (`@@`, `#@#`) |
| RuleCompiler.SkippedLine | eolie/database_adblock.py:497-498 | the skip test: `-abp-`, `$`, `!` or `[` in the line; ClassifyAbp gives it priority over every other branch |
| RuleCompiler.BlacklistNeverMatchesHost | eolie/database_adblock.py:231-233 | with a negated domain the blacklist is non-empty and `@`-delimited, so `blacklist != netloc` holds for every host without `@` |
| AdblockRules.ParseHostsLines | eolie/database_adblock.py:410-421 | one parse result per line of the hosts file |
| AdblockRules.ParsedAt | eolie/database_adblock.py:410-421 | the parse result at each position is the per-line parse of that line |
| AdblockRules.ApplyFound | eolie/database_adblock.py:414-424 | one parsed hosts-file line applied: the host upserted, or nothing |
| AdblockRules.ApplyAllFound | eolie/database_adblock.py:410-428 | the parsed lines applied in order; FoundSnoc, FoundKeepKeys and FoundStampedExactly state what it does |
| AdblockRules.ApplyHostsLines | eolie/database_adblock.py:410-428 | a hosts file's lines applied to the host table |
| AdblockRules.FoundCount | eolie/database_adblock.py:425 | the number of saved hosts never exceeds the number of lines |
| AdblockRules.FoundSnoc | eolie/database_adblock.py:410-428 | saving one more line applies that line's host to the table and counts it exactly when it is a host |
| AdblockRules.FoundStep | eolie/database_adblock.py:410-428 | the same one-line step stated on prefixes, as the loop uses it |
| AdblockRules.FoundKeepKeys | eolie/database_adblock.py:410-428 | saving a hosts file loses no host and keeps hosts unique |
| AdblockRules.FoundStamped | eolie/database_adblock.py:410-428 | every host found in the file carries the pass stamp afterwards |
| AdblockRules.HostsEntryStamped | eolie/database_adblock.py:410-428 | a well-formed `address host` line in a saved file leaves that host stamped, so it survives the prune |
| AdblockRules.FoundHosts | eolie/database_adblock.py:414-424 | the hosts the parsed lines name, both directions |
| AdblockRules.FoundHostsSnoc | eolie/database_adblock.py:410-424 | one more line adds exactly the host it names |
| AdblockRules.FoundStampedExactly | eolie/database_adblock.py:410-428 | a hosts file stamps exactly its hosts: the stamped keys become the old stamped keys plus the hosts found |
| AdblockRules.HostsPassEvicts | eolie/database_adblock.py:410-539 | with an epoch no row carried, after the prune the host table holds exactly the hosts the file names |
| AdblockRules.ClassifyLines | eolie/database_adblock.py:493-508 | one classification per line |
| AdblockRules.ClassifiedAt | eolie/database_adblock.py:493-508 | the classification at each position is the per-line classification |
| AdblockRules.ApplyAbpRule | eolie/database_adblock.py:431-483 | one classified line applied: a CSS row appended, a key upserted, or nothing for skipped, ignored, raising or empty lines |
| AdblockRules.ApplyAbpRules | eolie/database_adblock.py:493-513 | the classified lines applied in order; AbpRulesSnoc, AbpRulesGrow and RulesStampExactly state what it does |
| AdblockRules.ApplyAbpLines | eolie/database_adblock.py:493-513 | an Adblock Plus list's lines classified and applied |
| AdblockRules.AbpCounted | eolie/database_adblock.py:510 | the number of counted lines never exceeds the number of lines |
| AdblockRules.AbpRulesSnoc | eolie/database_adblock.py:493-513 | saving one more line applies its rule and counts it exactly when it is neither skipped nor raises |
| AdblockRules.AbpRulesStep | eolie/database_adblock.py:493-513 | the same one-line step stated on prefixes, as the loop uses it |
| AdblockRules.AbpRulesGrow | eolie/database_adblock.py:493-513 | saving Adblock Plus lines loses no key and keeps the tables valid |
| AdblockRules.GrowsTransitive | eolie/database_adblock.py:516-560 | growth across successive lists composes |
| AdblockRules.AbpRuleGrows | eolie/database_adblock.py:431-483 | one rule loses no key, keeps the tables valid, and adds one CSS row exactly for a CSS rule (CSS saves are plain inserts) |
| AdblockRules.SourceGrows | eolie/database_adblock.py:543-560 | one downloaded list, hosts or Adblock Plus, or a failed download, loses no key and keeps the tables valid |
| AdblockRules.SourcesGrow | eolie/database_adblock.py:516-560 | a chain of lists loses no key and keeps the tables valid |
| AdblockRules.ApplySource | eolie/database_adblock.py:543-560 | one fetched list applied by the hosts or Adblock Plus parser; nothing for a failed fetch |
| AdblockRules.ApplySources | eolie/database_adblock.py:516-560 | the chain of lists applied in order; SourcesGrow and SourcesStampExactly state what it does |
| AdblockRules.RuleSeen | eolie/database_adblock.py:431-483 | what one classified line stores: its key or its CSS rule |
| AdblockRules.RulesSeen | eolie/database_adblock.py:493-513 | what a list's lines store, in order |
| AdblockRules.SourceSeen | eolie/database_adblock.py:543-558 | what one fetched list stores: nothing when the fetch failed |
| AdblockRules.SourcesSeen | eolie/database_adblock.py:516-560 | what the chain of lists stores |
| AdblockRules.StampedCss | eolie/database_adblock.py:439-460 | CSS rules as rows carrying the epoch, one per rule, in order |
| AdblockRules.StampedCssConcat | eolie/database_adblock.py:439-460 | stamping distributes over concatenation |
| AdblockRules.StampsExactlyCompose | eolie/database_adblock.py:516-560 | what two stretches of a pass stamp composes: the second's keys and CSS rows follow the first's |
| AdblockRules.UpsertStampsKey | eolie/database_adblock.py:315-332 | saving a key stamps exactly that key among the table's stamped keys |
| AdblockRules.AppendStampsCss | eolie/database_adblock.py:431-460 | inserting a CSS rule appends exactly its stamped row to the rows the prune keeps |
| AdblockRules.RuleStampsExactly | eolie/database_adblock.py:431-483 | saving one line stamps exactly what it stores: its key joins the stamped keys, its CSS row is appended to the stamped rows |
| AdblockRules.RulesStampExactly | eolie/database_adblock.py:493-513 | saving a list's lines stamps exactly what they store |
| AdblockRules.SourceStampsExactly | eolie/database_adblock.py:543-560 | saving one fetched list stamps exactly what it stores |
| AdblockRules.SourcesStampExactly | eolie/database_adblock.py:516-560 | a pass without exceptions stamps exactly what its lists store, no more and no less |
| AdblockRules.PassKeepsExactlyWhatItSaw | eolie/database_adblock.py:516-541 | eviction: when no row carried the epoch before, after the prune the keyed tables hold exactly the keys the lists store and the CSS table exactly their rules, so a rule dropped upstream is gone |
| AdblockRules.FreshEpochKeys | eolie/database_adblock.py:532-537 | with nothing stamped before, the keys kept by the prune are exactly those stamped in the pass |
| AdblockRules.FreshEpochCss | eolie/database_adblock.py:538-539 | with nothing stamped before, the CSS rows kept by the prune are exactly those appended in the pass |
| AdblockRules.NothingStamped | eolie/database_adblock.py:532-539 | a table with no row carrying the epoch is emptied by the prune |
| AdblockRules.SameEpochKeepsEarlierPass | eolie/database_adblock.py:113-121 | the epoch is taken once, when the store is opened: a second pass keeps every key and CSS row the first one stamped, whether or not its lists still hold them |
| AdblockRules.PruneAll | eolie/database_adblock.py:530-539 | after the end-of-pass prune, every row of all four tables carries the pass stamp |
| AdblockRules.PruneAllReconciles | eolie/database_adblock.py:530-539 | after the prune, each keyed table holds exactly the keys the pass stamped; validity is kept; the prune is idempotent |
| AdblockRules.PruneAllValid | eolie/database_adblock.py:530-539 | the pruned tables are valid whatever they held before |
| AdblockRules.SourceList | eolie/database_adblock.py:186-195 | the five hosts lists, then EasyList, then the localized list exactly when the language prefix before `_` has one |
| AdblockRules.SourcesDispatch | eolie/database_adblock.py:553-558 | a listed URI is handled by the hosts parser exactly when it is one of the first five |
| AdblockRules.UpdateDue | eolie/database_adblock.py:185 | the throttle test: a pass is due when the epoch is more than 172800 s past the version read |
| AdblockRules.StoredVersionAsWritten | eolie/database_adblock.py:177-183 | the version `update` reads as written: always 0, because the pragma read yields no row; ThrottleIgnoredAsWritten states the consequence |
| AdblockRules.StoredVersion | eolie/database_adblock.py:177-183 | the version as intended: the recorded pass time, or 0; ThrottleHolds states the consequence |
| AdblockRules.ThrottleIgnoredAsWritten | eolie/database_adblock.py:177-185 | as written, whatever pass was recorded, an update is due exactly when the clock is more than two days past the epoch, so a pass recorded at the same time holds nothing back |
| AdblockRules.ThrottleHolds | eolie/database_adblock.py:185 | with the pass time read back, no update is due exactly when at most two days have passed since the last pass, never right after one; with no pass recorded it reads 0 as the source does |
| AdblockRules.ServedNames | eolie/database_adblock.py:231-235 | a name is listed exactly when some CSS row carrying it is served on the page, and there are at most as many names as rows |
| AdblockRules.ServedNamesSnoc | eolie/database_adblock.py:231-235 | the names keep table order: a row appended to the table adds its name at the end exactly when it is served |
| AdblockRules.ServedOn | eolie/database_adblock.py:231-233 | the CSS query's test as written: `(blacklist!='' AND blacklist!=?) OR whitelist=?`, and empty lists for the default rules; the Findings lemmas rest on it |
| AdblockRules.Stylesheet | eolie/database_adblock.py:207-236 | the names joined by `,\n` followed by the hiding declaration, or the declaration alone for no names |
| AdblockRules.DropLastTwo | eolie/database_adblock.py:236 | `rules[:-2]`: the text without its last two characters, or empty |
| AdblockRules.AccumulatedSheet | eolie/database_adblock.py:234-236 | the loop's `name,\n` accumulation with the last separator cut off is the joined stylesheet |
| AdblockRules.SingleDomainServed | eolie/database_adblock.py:451-455 | a rule for one domain is served on that domain |
| AdblockRules.TwoDomainsServedOnNeither | eolie/database_adblock.py:451-455 | as written, a rule for `a.com,b.com` is stored with whitelist `a.comb.com` and is served on neither domain |
| AdblockRules.NegatedDomainStillServed | eolie/database_adblock.py:452-453 | as written, a rule with a negated domain is served on every page whose host has no `@`, the negated domain included |
| AdblockRules.SplitDomains | eolie/database_adblock.py:451-455 | the corrected storage: the listed domains are exactly those without `~`, the negated ones exactly the `~x` stripped to `x` |
| AdblockRules.ServedOnIntended | eolie/database_adblock.py:231-233 | the intended test: served on a listed domain, or anywhere but a negated one when some domain is negated |
| AdblockRules.ListedDomainServedIntended | eolie/database_adblock.py:451-455 | as intended, a rule is served on every domain it lists, however many |
| AdblockRules.NegatedDomainHiddenIntended | eolie/database_adblock.py:452-453 | as intended, a rule is not served on a domain it negates and does not also list |
| AdblockRules.SingleDomainAgrees | eolie/database_adblock.py:231-233 | for a rule with one plain domain, the stored form and the intended one agree on every page |
| Adblock.RegexList | eolie/database_adblock.py:271-275 | the compiled union's members are the `adblock_re` regexes, in table order |
| Adblock.DomainRegexList | eolie/database_adblock.py:282-285 | the domain patterns consulted are exactly the regexes stored for that domain |
| Adblock.AnyMatch | eolie/database_adblock.py:271-299 | some pattern of the joined union matches the text: how `a|b|c` is read |
| Adblock.BatchCount | eolie/database_adblock.py:425-428 | commits every 100 saved lines: the number of commits is the count divided by 100 |
| Adblock.DatabaseAdblock.constructor | eolie/database_adblock.py:113-121 | a store over the given tables, no compiled regex, not cancelled, with the creation time as the pass stamp |
| Adblock.DatabaseAdblock.AddNetloc | eolie/database_adblock.py:315-332 | the host table becomes the insert-or-restamp of the host |
| Adblock.DatabaseAdblock.AddRegex | eolie/database_adblock.py:334-351 | the regex table becomes the insert-or-restamp of the regex |
| Adblock.DatabaseAdblock.AddRegexDomain | eolie/database_adblock.py:353-371 | the domain-regex table becomes the insert-or-restamp of the (regex, domain) pair |
| Adblock.DatabaseAdblock.SaveCssDefaultRule | eolie/database_adblock.py:431-441 | one CSS row named `line[2:]` with empty lists is appended with the pass stamp |
| Adblock.DatabaseAdblock.SaveCssDomainRule | eolie/database_adblock.py:443-460 | raises exactly when the line does not split into two parts at `##`; otherwise the tables gain the domain rule |
| Adblock.DatabaseAdblock.DomainLists | eolie/database_adblock.py:448-455 | the loop builds exactly the whitelist and blacklist of the domain list |
| Adblock.DatabaseAdblock.SaveAbpRule | eolie/database_adblock.py:462-483 | the tables change as the classified rule says; raises exactly for `\|\|` (a NULL regex hits NOT NULL) |
| Adblock.DatabaseAdblock.SaveAnchoredRule | eolie/database_adblock.py:468-479 | the `\|\|` branch: a host for `\|\|host^`, otherwise the regex branch |
| Adblock.DatabaseAdblock.SaveAnchoredRegex | eolie/database_adblock.py:472-479 | a domain regex when the parsed domain is non-empty, a plain regex otherwise, a raise for a NULL regex |
| Adblock.DatabaseAdblock.IsCancelled | eolie/database_adblock.py:494 | reports the cancellation flag; a concurrent `stop()` may set it, and nothing clears it |
| Adblock.DatabaseAdblock.Stop | eolie/database_adblock.py:201-205 | cancels the running pass |
| Adblock.DatabaseAdblock.SaveRules | eolie/database_adblock.py:402-429 | a hosts file, over its decoded text: never raises except on cancellation; on success every line is processed; the host table is the file's prefix applied; commits are the saved-host count divided by 100 |
| Adblock.DatabaseAdblock.SaveHostsLines | eolie/database_adblock.py:410-429 | the per-line loop with the same contract over the line list |
| Adblock.DatabaseAdblock.SaveAndCountHostsLine | eolie/database_adblock.py:420-428 | one line saved and counted; the counter stays below 100 and `100·commits + count` grows by exactly one per saved host |
| Adblock.DatabaseAdblock.CountLine | eolie/database_adblock.py:425-428 | the counter stays below 100 and `100·commits + count` grows by one |
| Adblock.DatabaseAdblock.SaveHostsLine | eolie/database_adblock.py:414-424 | saves the parsed host exactly when the line yields one |
| Adblock.DatabaseAdblock.SaveAbpRules | eolie/database_adblock.py:485-514 | an Adblock Plus list, over its decoded text: the tables are the processed prefix of the classified lines applied; it raises exactly at the first line whose rule raises, and only after all earlier lines are saved; commits are the counted lines divided by 100 |
| Adblock.DatabaseAdblock.SaveAbpLines | eolie/database_adblock.py:493-514 | the same contract over the line list |
| Adblock.DatabaseAdblock.SaveClassifiedLines | eolie/database_adblock.py:493-514 | the loop against the per-line classification |
| Adblock.DatabaseAdblock.SaveAbpStep | eolie/database_adblock.py:494-513 | one iteration: on cancel or raise nothing changes; otherwise the prefix grows by one line and the counter relation holds |
| Adblock.DatabaseAdblock.SaveAndCountAbpLine | eolie/database_adblock.py:497-513 | one classified line saved; raising leaves tables and counter as they were |
| Adblock.DatabaseAdblock.SaveAbpLine | eolie/database_adblock.py:497-508 | dispatches a line to the CSS, ignore or rule branch as its classification says |
| Adblock.DatabaseAdblock.SaveSource | eolie/database_adblock.py:553-558 | a downloaded list goes to the hosts parser or the Adblock Plus parser; the tables only grow and stay valid |
| Adblock.DatabaseAdblock.OnLoadUriContent | eolie/database_adblock.py:543-560 | a completed chain leaves exactly the pruned result of all lists, an empty cache and the pass time recorded; an interrupted chain keeps cache and record and only grows the tables |
| Adblock.DatabaseAdblock.OnSaveRules | eolie/database_adblock.py:516-541 | stops on cancellation, loads the next list, or prunes when none is left; same contract |
| Adblock.DatabaseAdblock.Reconcile | eolie/database_adblock.py:530-541 | the prune of all four tables, an empty cache, and the pass time recorded |
| Adblock.DatabaseAdblock.Update | eolie/database_adblock.py:150-199 | as written: a pass starts exactly when the network is up and the clock is more than two days past the epoch, whatever pass was recorded; without network nothing changes; with network the cancellation is reset; a completed pass leaves the pruned result of every source list, an empty cache and the pass time recorded; an interrupted one only grows the tables |
| Adblock.DatabaseAdblock.UpdateIntended | eolie/database_adblock.py:177-199 | the corrected `update`: a pass starts exactly when the network is up and the recorded pass is more than two days old; none starts right after a completed pass; otherwise the same effects as `Update` |
| Adblock.DatabaseAdblock.UpdateFrom | eolie/database_adblock.py:184-199 | the rest of `update` once the version is read: reset the cancellation, and start a pass exactly when the version is more than two days old |
| Adblock.DatabaseAdblock.IsNetlocBlocked | eolie/database_adblock.py:238-252 | blocked exactly when the host has a row |
| Adblock.DatabaseAdblock.IsUriBlocked | eolie/database_adblock.py:254-299 | a cached URI is allowed; otherwise the union is compiled once from a non-empty regex table; blocked exactly when the union or a regex of the page's domain matches; an allowed URI is added to the cache |
| Adblock.DatabaseAdblock.BuildStylesheet | eolie/database_adblock.py:225-236 | the accumulation loop yields the stylesheet of the served names |
| Adblock.DatabaseAdblock.GetDefaultCssRules | eolie/database_adblock.py:207-218 | the stylesheet of the rules with empty whitelist and blacklist |
| Adblock.DatabaseAdblock.GetCssRules | eolie/database_adblock.py:220-236 | empty for a non-http(s) URI; otherwise the stylesheet of the rules served on the page's host without `www.` |
| History.SameKeysValid | eolie/database_history.py:337-347 | updating non-key columns keeps rowids and URIs unique |
| History.IndexOfUri | eolie/database_history.py:97-99 | the first row with the URI, or none exactly when no row has it |
| History.NextId | eolie/database_history.py:116-122 | the new rowid exceeds every rowid: one more than the largest, or 1 for an empty table |
| History.NewGuid | eolie/database_history.py:111-115 | the guid of a new row: the caller's, otherwise the first draw no row uses (FirstUnusedGuid) |
| History.FirstUnusedGuid | eolie/database_history.py:112-115 | the first drawn guid no row uses, or none exactly when every draw is used |
| History.AddRowValid | eolie/database_history.py:96-122 | adding a visit keeps rowids and URIs unique |
| History.AddRow | eolie/database_history.py:96-122 | the history half of `add`: the known URI's row revisited in place, or a new row appended; AddKnownUri, AddNewUri and AddRowValid state it |
| History.Revisited | eolie/database_history.py:101-108 | the row `add` writes over a known URI: new title, netloc and mtime, one more visit |
| History.AddKnownUri | eolie/database_history.py:101-108 | re-visiting a known URI updates that row in place: same id and guid, popularity one higher, new title, netloc and mtime; no other row changes |
| History.AddNewUri | eolie/database_history.py:110-122 | visiting a new URI appends one row with a fresh rowid, popularity 0 and the given guid |
| History.IdOfUri | eolie/database_history.py:202-217 | an id exactly when some row has the URI stripped of trailing `/`, and it is that row's id |
| History.AddThenGetId | eolie/database_history.py:202-217 | after adding a URI, `get_id` of that URI with any number of trailing slashes returns the id `add` returned |
| History.RStripSlashes | eolie/database_history.py:209 | stripping `/` ignores extra trailing slashes |
| History.AtimesOf | eolie/database_history.py:279-289 | the access times listed are exactly those recorded for the row |
| History.AtimesOfAppend | eolie/database_history.py:279-289 | listing access times distributes over appended rows |
| History.AtimeRows | eolie/database_history.py:433-434 | one access-time row per inserted time |
| History.AtimeRowsSnoc | eolie/database_history.py:431-434 | inserting one more time appends one row |
| History.AtimesOfRows | eolie/database_history.py:279-289 | inserted times are listed back for their row, in order, and for no other row |
| History.NewAtimes | eolie/database_history.py:127-128 | the inserted times are exactly the given times not already recorded |
| History.NewAtimesStep | eolie/database_history.py:431-434 | the insert loop's one-time step |
| History.SetAtimesStep | eolie/database_history.py:431-434 | one iteration of the insert loop appends a row exactly when the time is new |
| History.NewAtimesDistinct | eolie/database_history.py:427-434 | for distinct given times, no time is inserted twice |
| History.RecordAtimes | eolie/database_history.py:422-434 | after `set_atimes`, the row's times are the old ones plus the new ones, and other rows' times are unchanged |
| History.VisitsBefore | eolie/database_history.py:143-150 | `clear_from` keeps exactly the access times before the bound |
| History.VisitsAfter | eolie/database_history.py:152-159 | `clear_to` keeps exactly the access times after the bound |
| History.IdsFromAtime | eolie/database_history.py:161-172 | distinct ids, exactly the rows with an access time at or after the bound |
| History.VisitedSince | eolie/database_history.py:161-172 | some access time of the row is at or after the bound |
| History.Empties | eolie/database_history.py:174-184 | exactly the rows without any access time |
| History.ClearFromEmptiesRecent | eolie/database_history.py:143-150 | after `clear_from(t)`, no row has an access time at or after t |
| History.DayOfRow | eolie/database_history.py:194-199 | one entry per access time of the row inside the day window |
| History.DayJoin | eolie/database_history.py:194-199 | the join holds exactly the (row, access time) pairs inside `[t, t + 86400]` |
| History.InDay | eolie/database_history.py:194-199 | the window `[t, t + 86400]` of `get` |
| History.InsertNewestFirst | eolie/database_history.py:198 | inserting into the ordered answer adds one entry |
| History.InsertKeepsNewestFirst | eolie/database_history.py:198 | insertion keeps the answer ordered newest first |
| History.InsertKeepsEntries | eolie/database_history.py:198 | insertion adds exactly the entry |
| History.SortNewestFirst | eolie/database_history.py:198 | `ORDER BY atime DESC` keeps the number of entries |
| History.SortIsNewestFirst | eolie/database_history.py:198 | the sorted answer is newest first and a permutation of the join |
| History.ClearToEmptiesOldDays | eolie/database_history.py:152-159 | after `clear_to(t)`, a day ending at or before t is empty |
| History.IdsForMtime | eolie/database_history.py:306-316 | exactly the rows modified after the sync time |
| History.SetMtimeThenSync | eolie/database_history.py:306-316 | after `set_mtime(id, m)`, the row is due for sync since s exactly when m > s |
| History.WithMtime | eolie/database_history.py:436-444 | `UPDATE history SET mtime=? WHERE rowid=?`; SetMtimeThenSync states its effect |
| History.SetTitleChangesOneRow | eolie/database_history.py:337-347 | `set_title` changes the title of the row with that id and nothing else |
| History.WithTitle | eolie/database_history.py:337-347 | `UPDATE history SET title=? WHERE rowid=?`; SetTitleChangesOneRow states its effect |
| History.OpenedPages | eolie/database_history.py:393-396 | exactly the (uri, title) of rows flagged opened |
| History.OpenedResetClearsAll | eolie/database_history.py:397-400 | after the reset, no row is flagged and no page is opened |
| History.OpenedReset | eolie/database_history.py:397-400 | `UPDATE history SET opened=0 WHERE opened=1`; OpenedResetClearsAll states its effect |
| History.PageClosedForgetsPage | eolie/database_history.py:412-416 | closing a URI removes exactly its pages from the opened set |
| History.PageClosed | eolie/database_history.py:412-416 | `UPDATE history SET opened=0 WHERE uri=? AND opened=1`; PageClosedForgetsPage states its effect |
| History.PageOpenedMarksMatch | eolie/database_history.py:417-420 | only the row with that URI and mtime is flagged; other rows keep their flag |
| History.PageOpened | eolie/database_history.py:417-420 | `UPDATE history SET opened=1 WHERE uri=? AND mtime=?`; PageOpenedMarksMatch states its effect |
| History.ResetThenRevisit | eolie/database_history.py:530-542 | after resetting a URI's popularity, the next visit gives it popularity 1 |
| History.PopularityReset | eolie/database_history.py:536-542 | `popularity=0` on the rows with that URI when the key has a scheme, with that netloc otherwise; ResetThenRevisit states its effect |
| History.WithoutId | eolie/database_history.py:134-141 | exactly the rows with a different rowid remain |
| History.WithoutIdValid | eolie/database_history.py:134-141 | removal keeps rowids and URIs unique |
| History.DatabaseHistory.constructor | eolie/database_history.py:62 | empty tables |
| History.DatabaseHistory.ExistsGuid | eolie/database_history.py:544-553 | true exactly when some row has the guid |
| History.DatabaseHistory.GetAtimes | eolie/database_history.py:279-289 | the row's recorded access times |
| History.DatabaseHistory.Add | eolie/database_history.py:82-132 | nothing for an empty URI; otherwise the stripped URI's row is updated or inserted, and the given times (default `[mtime]`) not yet recorded are added; returns the row id |
| History.DatabaseHistory.Upsert | eolie/database_history.py:96-122 | the `history` half of `add`, keeping the table valid |
| History.DatabaseHistory.FreshGuid | eolie/database_history.py:111-115 | a guid given by the caller is kept; otherwise the first unused draw |
| History.DatabaseHistory.SetAtimes | eolie/database_history.py:422-434 | appends exactly the new times for the row |
| History.DatabaseHistory.InsertAtimes | eolie/database_history.py:431-434 | the insert loop against a snapshot of the current times |
| History.DatabaseHistory.Remove | eolie/database_history.py:134-141 | drops the row with the id; access times stay |
| History.DatabaseHistory.ClearFrom | eolie/database_history.py:143-150 | keeps the access times before the bound |
| History.DatabaseHistory.ClearTo | eolie/database_history.py:152-159 | keeps the access times after the bound |
| History.DatabaseHistory.GetFromAtime | eolie/database_history.py:161-172 | the distinct ids visited at or after the bound |
| History.DatabaseHistory.GetEmpties | eolie/database_history.py:174-184 | the ids without access times |
| History.DatabaseHistory.Get | eolie/database_history.py:186-200 | the day's visits, newest first, a permutation of the join |
| History.DatabaseHistory.GetId | eolie/database_history.py:202-217 | the id of the stripped URI's row, if any |
| History.DatabaseHistory.GetIdsForMtime | eolie/database_history.py:306-316 | the ids modified after the sync time |
| History.DatabaseHistory.SetTitle | eolie/database_history.py:337-347 | retitles the row with the id |
| History.DatabaseHistory.SetMtime | eolie/database_history.py:436-444 | sets the mtime of the row with the id |
| History.DatabaseHistory.GetOpenedPages | eolie/database_history.py:386-400 | answers the opened pages and then clears every opened flag |
| History.DatabaseHistory.SetPageState | eolie/database_history.py:402-420 | nothing for no URI; closes the stripped URI without an mtime; with an mtime, opens the row with that URI and mtime |
| History.DatabaseHistory.ResetPopularity | eolie/database_history.py:530-542 | zeroes popularity by URI when the key has a scheme, by netloc otherwise |
| Search.NonEmpty | eolie/database_history.py:456 | the filter keeps only non-empty strings of its input, never more of them |
| Search.NonEmptySnoc | eolie/database_history.py:456 | one more string is kept at the end exactly when it is not empty, so order and repeats are kept |
| Search.NonEmptyComplete | eolie/database_history.py:456 | every non-empty string is kept |
| Search.StripAllSnoc | eolie/database_history.py:455 | stripping is per piece and in order: one more piece adds its stripped form at the end |
| Search.StripAll | eolie/database_history.py:455 | `[value.strip() for value in words]`, per piece and in order |
| Search.StrippedWords | eolie/database_history.py:455-456 | no empty word survives, and no word contains a space when no piece does; its exact construction, order and repeats included, is StrippedWordsSnoc |
| Search.StrippedWordsComplete | eolie/database_history.py:455-456 | every non-empty stripped piece is kept |
| Search.StrippedWordsSnoc | eolie/database_history.py:455-456 | one more piece appends exactly its stripped form, or nothing when that is empty: the words are the stripped pieces in order, repeats kept |
| Search.StrippedWordsSound | eolie/database_history.py:455-456 | every word is the stripped form of some piece |
| Search.Words | eolie/database_history.py:453-456 | the query's words: split at spaces, stripped, the empty ones dropped; WordsOfQuery states them |
| Search.WordsOfQuery | eolie/database_history.py:453-456 | the query's words contain no space, every non-blank space-separated piece is among them, and every word is the stripped form of such a piece |
| Search.NetlocBonusAsWrittenInverted | eolie/database_history.py:519-520 | as written, the netloc bonus is granted exactly when the netloc does not start with `word.` |
| Search.NetlocBonusAsWritten | eolie/database_history.py:519-520 | the bonus test as written: the truthiness of `find`, every answer but 0 |
| Search.NetlocBonus | eolie/database_history.py:519-520 | the bonus test as intended: the netloc holds `word.` |
| Search.NetlocBonusMissesOwnSite | eolie/database_history.py:519-520 | the query `gnome` on `gnome.org`: the intended bonus applies, the written test refuses it |
| Search.NetlocBonusGoesElsewhere | eolie/database_history.py:519-520 | the query `wiki` on `gnome.org`: the written test grants a bonus the intended test refuses |
| Search.WordScore | eolie/database_history.py:507-523 | the intended per-word score: 0 to 4, and 0 exactly when neither the lower-cased title nor the lower-cased URI contains the word; the netloc bonus goes to a netloc holding `word.` |
| Search.WordScoreAsWritten | eolie/database_history.py:507-523 | the per-word score `search` computes, with the `find` truthiness: 0 to 4, and 0 exactly when neither the lower-cased title nor the lower-cased URI contains the word |
| Search.WordScoreAsWrittenDiffers | eolie/database_history.py:507-523 | the written score equals the intended one without a URI match; with one, it is one lower when the netloc starts with `word.` and one higher when the netloc does not hold `word.` |
| Search.ScoreBounds | eolie/database_history.py:505-523 | an item's score as `search` computes it lies between 0 and 4 per word |
| Search.ScoreZero | eolie/database_history.py:505-523 | an item's score as `search` computes it is 0 exactly when no word occurs in its title or URI |
| Search.Score | eolie/database_history.py:505-523 | the as-written score summed over the words; ScoreBounds, ScoreZero and ScoreAsWrittenDiffers state it |
| Search.ScoreIntended | eolie/database_history.py:505-523 | the intended score summed over the words, the reference ScoreAsWrittenDiffers compares with |
| Search.BonusGained | eolie/database_history.py:519-520 | counts the words found in the URI whose netloc does not hold `word.`, at most one per word |
| Search.BonusLost | eolie/database_history.py:519-520 | counts the words found in the URI whose netloc starts with `word.`, at most one per word |
| Search.ScoreAsWrittenDiffers | eolie/database_history.py:505-523 | the score `search` gives equals the intended score plus the bonuses gained on foreign netlocs minus those lost on the searched site |
| Search.ScoreAsIntendedWithoutUriMatch | eolie/database_history.py:505-523 | where no word occurs in the URI, `search` scores as intended |
| Search.ScoreAll | eolie/database_history.py:505-524 | one scored item per item, scored as `search` does |
| Search.ScoredAt | eolie/database_history.py:505-524 | each scored item keeps the item's id, title and URI with the score `search` computes, netloc bonus by `find` truthiness included |
| Search.Dedup | eolie/database_history.py:525-527 | the items kept in order without repeating a URI; DedupSnoc, DedupDistinct, DedupKeepsUris and DedupFirstWins state it |
| Search.DedupSnoc | eolie/database_history.py:525-527 | an item is appended exactly when its URI is not already kept |
| Search.DedupDistinct | eolie/database_history.py:525-527 | kept items come from the input and have pairwise different URIs |
| Search.DedupKeepsUris | eolie/database_history.py:525-527 | every input URI is represented |
| Search.DedupFirstWins | eolie/database_history.py:525-527 | each kept item is the first input item with its URI |
| Search.ScoreItem | eolie/database_history.py:506-523 | the nested loop, with the bonus test `netloc.find(word + ".") != 0` as written, computes the item's score |
| Search.SearchItems | eolie/database_history.py:446-528 | the answer is the de-duplicated scoring, as written, of the fetched items for the query's words |
| Search.ScoreAndDedup | eolie/database_history.py:503-528 | the loop computes the de-duplicated scoring as written |
| Search.SearchStep | eolie/database_history.py:505-527 | one iteration of the item loop: the scored item is appended exactly when its URI is new |
| Strings.Find | eolie/database_history.py:512-519 | Python's `find`: the least index where the text occurs, or -1 |
| Strings.FindZeroIsPrefix | eolie/database_history.py:519 | `find` answers 0 exactly when the string starts with the text |
| Strings.Split | eolie/database_adblock.py:410 | Python's `split` with a non-empty separator; SplitFacts states it |
| Strings.SplitFacts | eolie/database_adblock.py:410 | the parts join back to the string, none holds the separator, and there is more than one exactly when the string holds it |
| Strings.Lines | eolie/database_adblock.py:410 | `content.split('\n')`, at least one line |
| Strings.ReplaceFirst | eolie/database_adblock.py:416-417 | `replace(a, b, 1)` for one character: same length, and the character set changes only in `a` and `b` |
| Strings.RemoveChar | eolie/database_adblock.py:418-421 | `replace(c, '')`: `c` is gone and every other character stays |
| Strings.RStrip | eolie/database_history.py:94 | `rstrip(c)`: the longest prefix not ending in `c`, only `c` removed |
| Strings.Strip | eolie/database_history.py:455 | `strip()`: both ends free of whitespace, no new character |
| Strings.Lower | eolie/database_history.py:508-510 | `lower()` character by character on ASCII letters |
| Strings.PrefixBefore | eolie/database_adblock.py:473 | item 0 of `re.split` on a character class: the prefix before the first stop character |
| Strings.TerminatedIsJoin | eolie/database_adblock.py:234-236 | appending `name + ",\n"` per name and cutting the last separator gives the join |

## Left out

- Downloading, `git` clone or pull of the script repository, the network-availability probe: the probe is the `networkAvailable` parameter of `Update`, and a download is a `fetch` function from URI to content or failure.
- `TaskHelper` threading and callbacks: the chain of lists runs as a loop in one method; an exception in a save (cancellation, NOT NULL violation, malformed CSS line) ends the chain with no prune. `helper_task.py` is not part of this model; this is how its `run` is read.
- Cancellation: `Gio.Cancellable` is a boolean field; each check may observe a concurrent `stop()`, modelled as a nondeterministic choice.
- SQLite, `SqlCursor`, schema creation (`create_db`), `drop_db`, locks: tables are sequences of rows in insertion order; commits are a counter.
- Byte decoding: downloaded content is already text. The error path is dropped: `rules.decode('utf-8')` (eolie/database_adblock.py:408 and :491) is strict, so a list that is not valid UTF-8 raises before any of its lines is saved, which ends the chain with no prune; `SaveRules` and `SaveAbpRules` cannot take that path.
- `re.compile`, `re.search`, `urlparse`, `remove_www`: abstract functions. The compiled `"|".join(...)` union is a list of patterns that matches when one member matches. This drops two things. First, the error path: a stored pattern that does not compile (the literal rule `/(/` stores `(`) makes `re.compile` and `re.search` raise on every `is_uri_blocked` call, and `RegexSearch` is total. Second, a join of patterns with groups or back-references is not always the disjunction of its members.
- `GLib.get_language_names`: the `languageName` parameter of `Update`.
- The SQL half of `search` (the two LIKE queries, their ORDER BY and LIMIT): the fetched rows are the `items` parameter of `SearchItems`.
- `get_title`, `get_uri`, `get_guid`, `get_mtime`, `get_id_by_guid`, `get_match`, `get_populars`, `clear`, and the history schema upgrades: not part of this model.
- `Strings.Lower`: ASCII letters only; Python's Unicode lower-casing is not modelled.
- History.DatabaseHistory.Get: the order among visits with equal access times is not stated, since SQLite leaves it unspecified; the answer is stated up to permutation.
- History.DatabaseHistory.Add: `get_random_string` is a finite list of draws, and the method requires that some draw is unused when a new row needs a guid; the source retries forever.
- History.NewAtimesDistinct: states no duplicate insertion only for a list of distinct times. A time repeated inside one argument list is inserted twice, because the loop checks a snapshot taken before it.

## Findings

The operations model the code as written. Each corrected member states the evidently intended behaviour. It is the reference definition the as-written member is compared with. For `update` it is a whole corrected operation, `UpdateIntended`.

| source | as written | input that shows it | evidently intended | confidence | as-written member | corrected member |
|---|---|---|---|---|---|---|
| eolie/database_adblock.py:177-185 | `PRAGMA db_mtime` is not an SQLite pragma: writing it at line 541 does nothing and reading it returns no row, so the version is always 0 and the two-day throttle never holds | a pass recorded at time T, then `update()` at T | the last pass time is read back, and no update runs within 172800 s of it | not executed | Adblock.DatabaseAdblock.Update | Adblock.DatabaseAdblock.UpdateIntended |
| eolie/database_history.py:519-520 | `if parsed.netloc.find(lower_word + "."):` tests the index's truthiness: -1 (absent) is true and 0 (prefix) is false | query `gnome` against `https://gnome.org/`: no bonus; query `wiki` against the same URI: a bonus | +1 when the netloc holds the word followed by a dot | not executed | Search.ScoreAsWrittenDiffers | Search.WordScore |
| eolie/database_adblock.py:451-455 | `whitelist += domain` concatenates the listed domains with no separator, and `get_css_rules` compares the whole whitelist with the host | `a.com,b.com##.ad` is stored with whitelist `a.comb.com` and is served on neither `a.com` nor `b.com` | the rule is served on each listed domain | not executed | AdblockRules.TwoDomainsServedOnNeither | AdblockRules.ListedDomainServedIntended |
| eolie/database_adblock.py:231-233 | a negated domain `~d` is stored as `@d@`, and the query tests `blacklist != netloc`, which no host without `@` can fail | `~d.com##.ad` is served on `d.com` | the rule is served everywhere but on `d.com` | not executed | AdblockRules.NegatedDomainStillServed | AdblockRules.NegatedDomainHiddenIntended |
