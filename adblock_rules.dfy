/**
 * The state of the ad-block store as values, and what saving a filter list
 * and reconciling at the end of a pass do to it. The class in `Adblock` is
 * proved against these functions.
 */
module AdblockRules {
  import opened Wrappers
  import opened Strings
  import opened Tables
  import opened RuleCompiler

  /** Seconds between two update passes. */
  const UpdateInterval: int := 172800

  /** What every stylesheet built by the CSS queries ends with. */
  const HideDeclaration: string := "{display: none !important;}"

  /** The hosts-file sources; every other source is an Adblock Plus list. */
  const HostsUris: seq<string> := [
    "https://adaway.org/hosts.txt",
    "https://pgl.yoyo.org/adservers/serverlist.php?hostformat=hosts&showintro=0&startdate%5Bday%5D=&startdate%5Bmonth%5D=&startdate%5Byear%5D=",
    "http://winhelp2002.mvps.org/hosts.txt",
    "http://hosts-file.net/ad_servers.txt",
    "https://pgl.yoyo.org/adservers/serverlist.php?hostformat=hosts&showintro=0&mimetype=plaintext"]

  const CssUris: seq<string> := ["https://easylist-downloads.adblockplus.org/easylist.txt"]

  /** The regional list fetched for the user's language. */
  const LocalizedCssUris: map<string, string> := map[
    "bg" := "http://stanev.org/abp/adblock_bg.txt",
    "zh" := "https://easylist-downloads.adblockplus.org/easylistchina.txt",
    "sk" := "https://raw.github.com/tomasko126/easylistczechandslovak/master/filters.txt",
    "cs" := "https://raw.github.com/tomasko126/easylistczechandslovak/master/filters.txt",
    "nl" := "https://easylist-downloads.adblockplus.org/easylistdutch.txt",
    "de" := "https://easylist-downloads.adblockplus.org/easylistgermany.txt",
    "he" := "https://raw.githubusercontent.com/easylist/EasyListHebrew/master/EasyListHebrew.txt",
    "it" := "https://easylist-downloads.adblockplus.org/easylistitaly.txt",
    "lt" := "http://margevicius.lt/easylistlithuania.txt",
    "es" := "https://easylist-downloads.adblockplus.org/easylistspanish.txt",
    "lv" := "https://notabug.org/latvian-list/adblock-latvian/raw/master/lists/latvian-list.txt",
    "ar" := "https://easylist-downloads.adblockplus.org/Liste_AR.txt",
    "fr" := "https://easylist-downloads.adblockplus.org/liste_fr.txt",
    "ro" := "http://www.zoso.ro/pages/rolist.txt",
    "ru" := "https://easylist-downloads.adblockplus.org/advblock.txt",
    "ja" := "http://bit.ly/11QrCfx",
    "fi" := "https://adb.juvander.net/Finland_adb.txt",
    "cz" := "http://adblock.dajbych.net/adblock.txt",
    "et" := "http://gurud.ee/ab.txt",
    "hu" := "https://raw.githubusercontent.com/szpeter80/hufilter/master/hufilter.txt"]

  /** The key of an `adblock_re_domain` row. */
  datatype DomainPattern = DomainPattern(regex: string, domain: string)

  /** An `adblock_css` row without its epoch. */
  datatype CssRule = CssRule(name: string, whitelist: string, blacklist: string)

  /** The four rule tables. */
  datatype RuleTables = RuleTables(
    netlocs: seq<Row<string>>,
    regexes: seq<Row<string>>,
    domainRegexes: seq<Row<DomainPattern>>,
    css: seq<Row<CssRule>>)

  /** What fetching one source gave: its text, or a failure. */
  datatype FetchResult = FetchFailed | Loaded(content: string)

  /** How a save loop ended: every line done, stopped by a cancellation, or an exception. */
  datatype SaveOutcome = Saved | Cancelled | Raised

  /** One row per key in each upserted table. */
  ghost predicate TablesValid(t: RuleTables) {
    UniqueKeys(t.netlocs) && UniqueKeys(t.regexes) && UniqueKeys(t.domainRegexes)
  }

  /** `b` holds every key of `a`, and `a`'s CSS rows are a prefix of `b`'s: nothing was deleted. */
  ghost predicate Grows(a: RuleTables, b: RuleTables) {
    Keys(a.netlocs) <= Keys(b.netlocs) && Keys(a.regexes) <= Keys(b.regexes)
    && Keys(a.domainRegexes) <= Keys(b.domainRegexes) && a.css <= b.css
  }

  // ---------------------------------------------------------------- hosts files

  /** The netloc each hosts-file line stores, if any, in line order. */
  function ParseHostsLines(lines: seq<string>): (found: seq<Option<string>>)
    ensures |found| == |lines|
  {
    if lines == [] then [] else ParseHostsLines(lines[..|lines| - 1]) + [HostsLineNetloc(lines[|lines| - 1])]
  }

  lemma {:induction false} ParsedAt(lines: seq<string>, i: int)
    requires 0 <= i < |lines|
    ensures ParseHostsLines(lines)[i] == HostsLineNetloc(lines[i])
  {
    if i < |lines| - 1 {
      ParsedAt(lines[..|lines| - 1], i);
    }
  }

  /** The netloc table after one parsed hosts-file line. */
  function ApplyFound(netlocs: seq<Row<string>>, found: Option<string>, epoch: int): seq<Row<string>> {
    match found
    case None => netlocs
    case Some(netloc) => Upsert(netlocs, netloc, epoch)
  }

  /** The netloc table after the parsed lines, in order. */
  function ApplyAllFound(netlocs: seq<Row<string>>, found: seq<Option<string>>, epoch: int): seq<Row<string>> {
    if found == [] then netlocs
    else ApplyFound(ApplyAllFound(netlocs, found[..|found| - 1], epoch), found[|found| - 1], epoch)
  }

  /** The netloc table after the given hosts-file lines. */
  function ApplyHostsLines(netlocs: seq<Row<string>>, lines: seq<string>, epoch: int): seq<Row<string>> {
    ApplyAllFound(netlocs, ParseHostsLines(lines), epoch)
  }

  /** How many parsed lines store a netloc (the lines `__save_rules` counts). */
  function FoundCount(found: seq<Option<string>>): (n: nat)
    ensures n <= |found|
  {
    if found == [] then 0
    else FoundCount(found[..|found| - 1]) + (if found[|found| - 1].Some? then 1 else 0)
  }

  /** One more parsed line: its upsert applies after the earlier ones, and it counts when it stores a netloc. */
  lemma FoundSnoc(netlocs: seq<Row<string>>, found: seq<Option<string>>, next: Option<string>, epoch: int)
    ensures ApplyAllFound(netlocs, found + [next], epoch) == ApplyFound(ApplyAllFound(netlocs, found, epoch), next, epoch)
    ensures FoundCount(found + [next]) == FoundCount(found) + (if next.Some? then 1 else 0)
  {
    assert (found + [next])[..|found|] == found;
  }

  /** Line `i` is saved after the earlier ones. */
  lemma FoundStep(netlocs: seq<Row<string>>, found: seq<Option<string>>, i: int, epoch: int)
    requires 0 <= i < |found|
    ensures ApplyAllFound(netlocs, found[..i + 1], epoch) == ApplyFound(ApplyAllFound(netlocs, found[..i], epoch), found[i], epoch)
    ensures FoundCount(found[..i + 1]) == FoundCount(found[..i]) + (if found[i].Some? then 1 else 0)
  {
    assert found[..i + 1] == found[..i] + [found[i]];
    FoundSnoc(netlocs, found[..i], found[i], epoch);
  }

  /** Saving hosts lines keeps one row per netloc and loses none. */
  lemma {:induction false} FoundKeepKeys(netlocs: seq<Row<string>>, found: seq<Option<string>>, epoch: int)
    ensures Keys(netlocs) <= Keys(ApplyAllFound(netlocs, found, epoch))
    ensures UniqueKeys(netlocs) ==> UniqueKeys(ApplyAllFound(netlocs, found, epoch))
  {
    if found != [] {
      var before := ApplyAllFound(netlocs, found[..|found| - 1], epoch);
      FoundKeepKeys(netlocs, found[..|found| - 1], epoch);
      match found[|found| - 1]
      case None =>
      case Some(netloc) =>
        UpsertFacts(before, netloc, epoch);
        if UniqueKeys(netlocs) {
          UpsertKeepsUnique(before, netloc, epoch);
        }
    }
  }

  /** Every netloc a parsed line stores carries the pass's epoch after the lines. */
  lemma {:induction false} FoundStamped(netlocs: seq<Row<string>>, found: seq<Option<string>>, epoch: int, i: int)
    requires 0 <= i < |found| && found[i].Some?
    ensures found[i].value in StampedKeys(ApplyAllFound(netlocs, found, epoch), epoch)
  {
    var init := found[..|found| - 1];
    var before := ApplyAllFound(netlocs, init, epoch);
    if i == |found| - 1 {
      UpsertSurvivesPrune(before, found[i].value, epoch);
    } else {
      assert init[i] == found[i];
      FoundStamped(netlocs, init, epoch, i);
      match found[|found| - 1]
      case None =>
      case Some(netloc) => UpsertSurvivesPrune(before, netloc, epoch);
    }
  }

  /**
   * Every host named by an `<address> <host>` line of a saved hosts file
   * carries the pass's epoch, so the prune at the end of the pass keeps it.
   */
  lemma HostsEntryStamped(netlocs: seq<Row<string>>, lines: seq<string>, epoch: int, i: int, address: string, host: string)
    requires 0 <= i < |lines| && lines[i] == address + " " + host
    requires address != [] && address[0] != '#'
    requires ' ' !in address && '\t' !in address && '@' !in address
    requires ' ' !in host && '\t' !in host && '@' !in host && '\r' !in host && '#' !in host
    ensures host in StampedKeys(ApplyHostsLines(netlocs, lines, epoch), epoch)
  {
    HostsEntry(address, host);
    ParsedAt(lines, i);
    FoundStamped(netlocs, ParseHostsLines(lines), epoch, i);
  }

  // ---------------------------------------------------------- Adblock Plus lists

  /** The rule each Adblock Plus line stands for, in line order. */
  function ClassifyLines(lines: seq<string>, netlocOf: string -> string): (rules: seq<AbpRule>)
    ensures |rules| == |lines|
  {
    if lines == [] then [] else ClassifyLines(lines[..|lines| - 1], netlocOf) + [ClassifyAbp(lines[|lines| - 1], netlocOf)]
  }

  lemma {:induction false} ClassifiedAt(lines: seq<string>, netlocOf: string -> string, i: int)
    requires 0 <= i < |lines|
    ensures ClassifyLines(lines, netlocOf)[i] == ClassifyAbp(lines[i], netlocOf)
  {
    if i < |lines| - 1 {
      ClassifiedAt(lines[..|lines| - 1], netlocOf, i);
    }
  }

  /** The tables after saving one classified Adblock Plus line. */
  function ApplyAbpRule(t: RuleTables, rule: AbpRule, epoch: int): RuleTables {
    match rule
    case CssDefault(name) => t.(css := t.css + [Row(CssRule(name, "", ""), epoch)])
    case CssDomain(name, whitelist, blacklist) => t.(css := t.css + [Row(CssRule(name, whitelist, blacklist), epoch)])
    case Host(netloc) => t.(netlocs := Upsert(t.netlocs, netloc, epoch))
    case DomainRegex(regex, domain) => t.(domainRegexes := Upsert(t.domainRegexes, DomainPattern(regex, domain), epoch))
    case GlobalRegex(regex) => t.(regexes := Upsert(t.regexes, regex, epoch))
    case _ => t
  }

  /** The tables after saving the classified lines, in order, none of which raises. */
  function ApplyAbpRules(t: RuleTables, rules: seq<AbpRule>, epoch: int): RuleTables {
    if rules == [] then t
    else ApplyAbpRule(ApplyAbpRules(t, rules[..|rules| - 1], epoch), rules[|rules| - 1], epoch)
  }

  /** The tables after saving the given Adblock Plus lines. */
  function ApplyAbpLines(t: RuleTables, lines: seq<string>, epoch: int, netlocOf: string -> string): RuleTables {
    ApplyAbpRules(t, ClassifyLines(lines, netlocOf), epoch)
  }

  /** How many of the classified lines `__save_abp_rules` counts towards a commit. */
  function AbpCounted(rules: seq<AbpRule>): (n: nat)
    ensures n <= |rules|
  {
    if rules == [] then 0
    else AbpCounted(rules[..|rules| - 1]) + (if rules[|rules| - 1].Counted() then 1 else 0)
  }

  /** One more classified line: its rule applies after the earlier ones, and it counts when saved. */
  lemma AbpRulesSnoc(t: RuleTables, rules: seq<AbpRule>, rule: AbpRule, epoch: int)
    ensures ApplyAbpRules(t, rules + [rule], epoch) == ApplyAbpRule(ApplyAbpRules(t, rules, epoch), rule, epoch)
    ensures AbpCounted(rules + [rule]) == AbpCounted(rules) + (if rule.Counted() then 1 else 0)
  {
    assert (rules + [rule])[..|rules|] == rules;
  }

  /** Line `i` is saved after the earlier ones. */
  lemma AbpRulesStep(t: RuleTables, rules: seq<AbpRule>, i: int, epoch: int)
    requires 0 <= i < |rules|
    ensures ApplyAbpRules(t, rules[..i + 1], epoch) == ApplyAbpRule(ApplyAbpRules(t, rules[..i], epoch), rules[i], epoch)
    ensures AbpCounted(rules[..i + 1]) == AbpCounted(rules[..i]) + (if rules[i].Counted() then 1 else 0)
  {
    assert rules[..i + 1] == rules[..i] + [rules[i]];
    AbpRulesSnoc(t, rules[..i], rules[i], epoch);
  }

  /** Saving Adblock Plus lines deletes nothing and keeps one row per key. */
  lemma {:induction false} AbpRulesGrow(t: RuleTables, rules: seq<AbpRule>, epoch: int)
    ensures Grows(t, ApplyAbpRules(t, rules, epoch))
    ensures TablesValid(t) ==> TablesValid(ApplyAbpRules(t, rules, epoch))
  {
    if rules != [] {
      var before := ApplyAbpRules(t, rules[..|rules| - 1], epoch);
      var rule := rules[|rules| - 1];
      var after := ApplyAbpRule(before, rule, epoch);
      assert ApplyAbpRules(t, rules, epoch) == after;
      AbpRulesGrow(t, rules[..|rules| - 1], epoch);
      AbpRuleGrows(before, rule, epoch);
      GrowsTransitive(t, before, after);
    }
  }

  lemma GrowsTransitive(a: RuleTables, b: RuleTables, c: RuleTables)
    requires Grows(a, b) && Grows(b, c)
    ensures Grows(a, c)
  {
  }

  /** Saving one rule deletes nothing, keeps one row per key and adds a CSS row exactly for a CSS rule. */
  lemma AbpRuleGrows(t: RuleTables, rule: AbpRule, epoch: int)
    ensures Grows(t, ApplyAbpRule(t, rule, epoch))
    ensures TablesValid(t) ==> TablesValid(ApplyAbpRule(t, rule, epoch))
    ensures |ApplyAbpRule(t, rule, epoch).css| == |t.css| + (if rule.CssDefault? || rule.CssDomain? then 1 else 0)
  {
    match rule
    case Host(netloc) => UpsertGrows(t.netlocs, netloc, epoch);
    case DomainRegex(regex, domain) => UpsertGrows(t.domainRegexes, DomainPattern(regex, domain), epoch);
    case GlobalRegex(regex) => UpsertGrows(t.regexes, regex, epoch);
    case _ =>
  }

  // ------------------------------------------------------------------ a pass

  /** The tables after one source of a pass that raised no exception. */
  function ApplySource(t: RuleTables, uri: string, fetched: FetchResult, epoch: int, netlocOf: string -> string): RuleTables {
    match fetched
    case FetchFailed => t
    case Loaded(content) =>
      if uri in HostsUris then t.(netlocs := ApplyHostsLines(t.netlocs, Lines(content), epoch))
      else ApplyAbpLines(t, Lines(content), epoch, netlocOf)
  }

  /** The tables after the sources, fetched in order, none of which raised. */
  function ApplySources(t: RuleTables, uris: seq<string>, fetch: string -> FetchResult, epoch: int, netlocOf: string -> string): RuleTables
    decreases |uris|
  {
    if uris == [] then t
    else ApplySources(ApplySource(t, uris[0], fetch(uris[0]), epoch, netlocOf), uris[1..], fetch, epoch, netlocOf)
  }

  lemma SourceGrows(t: RuleTables, uri: string, fetched: FetchResult, epoch: int, netlocOf: string -> string)
    ensures Grows(t, ApplySource(t, uri, fetched, epoch, netlocOf))
    ensures TablesValid(t) ==> TablesValid(ApplySource(t, uri, fetched, epoch, netlocOf))
  {
    match fetched
    case FetchFailed =>
    case Loaded(content) =>
      FoundKeepKeys(t.netlocs, ParseHostsLines(Lines(content)), epoch);
      AbpRulesGrow(t, ClassifyLines(Lines(content), netlocOf), epoch);
  }

  /** A pass without exceptions deletes nothing before its prune and keeps one row per key. */
  lemma {:induction false} SourcesGrow(t: RuleTables, uris: seq<string>, fetch: string -> FetchResult, epoch: int, netlocOf: string -> string)
    ensures Grows(t, ApplySources(t, uris, fetch, epoch, netlocOf))
    ensures TablesValid(t) ==> TablesValid(ApplySources(t, uris, fetch, epoch, netlocOf))
    decreases |uris|
  {
    if uris != [] {
      var next := ApplySource(t, uris[0], fetch(uris[0]), epoch, netlocOf);
      SourceGrows(t, uris[0], fetch(uris[0]), epoch, netlocOf);
      SourcesGrow(next, uris[1..], fetch, epoch, netlocOf);
    }
  }

  /** The deletions at the end of a pass: every row without the pass's epoch goes. */
  function PruneAll(t: RuleTables, epoch: int): (r: RuleTables)
    ensures forall i :: 0 <= i < |r.netlocs| ==> r.netlocs[i].mtime == epoch
    ensures forall i :: 0 <= i < |r.regexes| ==> r.regexes[i].mtime == epoch
    ensures forall i :: 0 <= i < |r.domainRegexes| ==> r.domainRegexes[i].mtime == epoch
    ensures forall i :: 0 <= i < |r.css| ==> r.css[i].mtime == epoch
  {
    RuleTables(Prune(t.netlocs, epoch), Prune(t.regexes, epoch), Prune(t.domainRegexes, epoch), Prune(t.css, epoch))
  }

  /**
   * The reconciliation keeps exactly the keys the epoch stamped, keeps one
   * row per key, and a second reconciliation changes nothing.
   */
  lemma PruneAllReconciles(t: RuleTables, epoch: int)
    ensures Keys(PruneAll(t, epoch).netlocs) == StampedKeys(t.netlocs, epoch)
    ensures Keys(PruneAll(t, epoch).regexes) == StampedKeys(t.regexes, epoch)
    ensures Keys(PruneAll(t, epoch).domainRegexes) == StampedKeys(t.domainRegexes, epoch)
    ensures TablesValid(t) ==> TablesValid(PruneAll(t, epoch))
    ensures PruneAll(PruneAll(t, epoch), epoch) == PruneAll(t, epoch)
  {
    PruneKeys(t.netlocs, epoch);
    PruneKeys(t.regexes, epoch);
    PruneKeys(t.domainRegexes, epoch);
    PruneIdempotent(t.netlocs, epoch);
    PruneIdempotent(t.regexes, epoch);
    PruneIdempotent(t.domainRegexes, epoch);
    PruneIdempotent(t.css, epoch);
  }

  lemma PruneAllValid(t: RuleTables, epoch: int)
    requires TablesValid(t)
    ensures TablesValid(PruneAll(t, epoch))
  {
    PruneKeys(t.netlocs, epoch);
    PruneKeys(t.regexes, epoch);
    PruneKeys(t.domainRegexes, epoch);
  }

  // ------------------------------------------------------ what a pass keeps

  /** The hosts the parsed hosts-file lines name. */
  function FoundHosts(found: seq<Option<string>>): (hosts: set<string>)
    ensures forall i :: 0 <= i < |found| && found[i].Some? ==> found[i].value in hosts
    ensures forall h :: h in hosts ==> exists i :: 0 <= i < |found| && found[i] == Some(h)
  {
    set i | 0 <= i < |found| && found[i].Some? :: found[i].value
  }

  lemma FoundHostsSnoc(found: seq<Option<string>>, next: Option<string>)
    ensures FoundHosts(found + [next]) == FoundHosts(found) + (if next.Some? then {next.value} else {})
  {
    var longer := found + [next];
    forall h | h in FoundHosts(longer) ensures h in FoundHosts(found) + (if next.Some? then {next.value} else {}) {
      var i :| 0 <= i < |longer| && longer[i] == Some(h);
      if i < |found| {
        assert found[i] == Some(h);
      }
    }
    forall h | h in FoundHosts(found) ensures h in FoundHosts(longer) {
      var i :| 0 <= i < |found| && found[i] == Some(h);
      assert longer[i] == Some(h);
    }
    if next.Some? {
      assert longer[|found|] == next;
    }
  }

  /**
   * Saving hosts-file lines stamps exactly the hosts they name: the keys
   * carrying the epoch afterwards are those that carried it before plus
   * the hosts found.
   */
  lemma {:induction false} FoundStampedExactly(netlocs: seq<Row<string>>, found: seq<Option<string>>, epoch: int)
    ensures StampedKeys(ApplyAllFound(netlocs, found, epoch), epoch) == StampedKeys(netlocs, epoch) + FoundHosts(found)
  {
    if found != [] {
      var init := found[..|found| - 1];
      var next := found[|found| - 1];
      assert found == init + [next];
      FoundStampedExactly(netlocs, init, epoch);
      FoundHostsSnoc(init, next);
      match next
      case None =>
      case Some(host) => UpsertSurvivesPrune(ApplyAllFound(netlocs, init, epoch), host, epoch);
    }
  }

  /**
   * A hosts file read in a pass whose epoch no row carried yet: after the
   * prune the host table holds exactly the hosts the file names.
   */
  lemma HostsPassEvicts(netlocs: seq<Row<string>>, lines: seq<string>, epoch: int)
    requires forall i :: 0 <= i < |netlocs| ==> netlocs[i].mtime != epoch
    ensures Keys(Prune(ApplyHostsLines(netlocs, lines, epoch), epoch)) == FoundHosts(ParseHostsLines(lines))
  {
    FoundStampedExactly(netlocs, ParseHostsLines(lines), epoch);
    PruneKeys(ApplyHostsLines(netlocs, lines, epoch), epoch);
  }

  /** The rules a pass saw: the keys it upserted and the CSS rules it appended, in order. */
  datatype Seen = Seen(hosts: set<string>, regexes: set<string>, domainPatterns: set<DomainPattern>, css: seq<CssRule>)

  const NothingSeen := Seen({}, {}, {}, [])

  /** What one saved line and then another saw. */
  function SeenBoth(a: Seen, b: Seen): Seen {
    Seen(a.hosts + b.hosts, a.regexes + b.regexes, a.domainPatterns + b.domainPatterns, a.css + b.css)
  }

  /** What saving one classified Adblock Plus line stores. */
  function RuleSeen(rule: AbpRule): Seen {
    match rule
    case CssDefault(name) => NothingSeen.(css := [CssRule(name, "", "")])
    case CssDomain(name, whitelist, blacklist) => NothingSeen.(css := [CssRule(name, whitelist, blacklist)])
    case Host(netloc) => NothingSeen.(hosts := {netloc})
    case DomainRegex(regex, domain) => NothingSeen.(domainPatterns := {DomainPattern(regex, domain)})
    case GlobalRegex(regex) => NothingSeen.(regexes := {regex})
    case _ => NothingSeen
  }

  function RulesSeen(rules: seq<AbpRule>): Seen {
    if rules == [] then NothingSeen else SeenBoth(RulesSeen(rules[..|rules| - 1]), RuleSeen(rules[|rules| - 1]))
  }

  /** What one source of a pass stores: nothing when its fetch failed. */
  function SourceSeen(uri: string, fetched: FetchResult, netlocOf: string -> string): Seen {
    match fetched
    case FetchFailed => NothingSeen
    case Loaded(content) =>
      if uri in HostsUris then NothingSeen.(hosts := FoundHosts(ParseHostsLines(Lines(content))))
      else RulesSeen(ClassifyLines(Lines(content), netlocOf))
  }

  function SourcesSeen(uris: seq<string>, fetch: string -> FetchResult, netlocOf: string -> string): Seen
    decreases |uris|
  {
    if uris == [] then NothingSeen
    else SeenBoth(SourceSeen(uris[0], fetch(uris[0]), netlocOf), SourcesSeen(uris[1..], fetch, netlocOf))
  }

  /** CSS rules as rows stamped with the epoch. */
  function StampedCss(rules: seq<CssRule>, epoch: int): (rows: seq<Row<CssRule>>)
    ensures |rows| == |rules|
    ensures forall i :: 0 <= i < |rules| ==> rows[i] == Row(rules[i], epoch)
  {
    if rules == [] then [] else [Row(rules[0], epoch)] + StampedCss(rules[1..], epoch)
  }

  lemma {:induction false} StampedCssConcat(a: seq<CssRule>, b: seq<CssRule>, epoch: int)
    ensures StampedCss(a + b, epoch) == StampedCss(a, epoch) + StampedCss(b, epoch)
  {
    if a != [] {
      assert (a + b)[1..] == a[1..] + b;
      StampedCssConcat(a[1..], b, epoch);
    }
  }

  /** From `before` to `after` the epoch was put on exactly the keys `seen` besides those that had it. */
  ghost predicate StampsKeysExactly<K>(before: seq<Row<K>>, after: seq<Row<K>>, seen: set<K>, epoch: int) {
    StampedKeys(after, epoch) == StampedKeys(before, epoch) + seen
  }

  lemma StampsKeysCompose<K>(a: seq<Row<K>>, b: seq<Row<K>>, c: seq<Row<K>>, s1: set<K>, s2: set<K>, epoch: int)
    requires StampsKeysExactly(a, b, s1, epoch) && StampsKeysExactly(b, c, s2, epoch)
    ensures StampsKeysExactly(a, c, s1 + s2, epoch)
  {
  }

  /** From `before` to `after` exactly the CSS rules `seen` were appended with the epoch. */
  ghost predicate StampsCssExactly(before: seq<Row<CssRule>>, after: seq<Row<CssRule>>, seen: seq<CssRule>, epoch: int) {
    Prune(after, epoch) == Prune(before, epoch) + StampedCss(seen, epoch)
  }

  lemma StampsCssCompose(a: seq<Row<CssRule>>, b: seq<Row<CssRule>>, c: seq<Row<CssRule>>, s1: seq<CssRule>, s2: seq<CssRule>, epoch: int)
    requires StampsCssExactly(a, b, s1, epoch) && StampsCssExactly(b, c, s2, epoch)
    ensures StampsCssExactly(a, c, s1 + s2, epoch)
  {
    StampedCssConcat(s1, s2, epoch);
    AppendChain(Prune(c, epoch), Prune(b, epoch), Prune(a, epoch), StampedCss(s1, epoch), StampedCss(s2, epoch), StampedCss(s1 + s2, epoch));
  }

  lemma AppendChain<T>(pc: seq<T>, pb: seq<T>, pa: seq<T>, x: seq<T>, y: seq<T>, xy: seq<T>)
    requires pc == pb + y && pb == pa + x && xy == x + y
    ensures pc == pa + xy
  {
  }

  /**
   * From `t` to `r` the epoch was put exactly on what `seen` holds: the
   * stamped keys of each keyed table grew by the keys seen, and the
   * stamped CSS rows by the rules seen, appended in order.
   */
  ghost predicate StampsExactly(t: RuleTables, r: RuleTables, seen: Seen, epoch: int) {
    && StampsKeysExactly(t.netlocs, r.netlocs, seen.hosts, epoch)
    && StampsKeysExactly(t.regexes, r.regexes, seen.regexes, epoch)
    && StampsKeysExactly(t.domainRegexes, r.domainRegexes, seen.domainPatterns, epoch)
    && StampsCssExactly(t.css, r.css, seen.css, epoch)
  }

  lemma StampsExactlyCompose(a: RuleTables, b: RuleTables, c: RuleTables, s1: Seen, s2: Seen, epoch: int)
    requires StampsExactly(a, b, s1, epoch) && StampsExactly(b, c, s2, epoch)
    ensures StampsExactly(a, c, SeenBoth(s1, s2), epoch)
  {
    StampsKeysCompose(a.netlocs, b.netlocs, c.netlocs, s1.hosts, s2.hosts, epoch);
    StampsKeysCompose(a.regexes, b.regexes, c.regexes, s1.regexes, s2.regexes, epoch);
    StampsKeysCompose(a.domainRegexes, b.domainRegexes, c.domainRegexes, s1.domainPatterns, s2.domainPatterns, epoch);
    StampsCssCompose(a.css, b.css, c.css, s1.css, s2.css, epoch);
  }

  /** Upserting a key stamps exactly that key. */
  lemma UpsertStampsKey<K>(rows: seq<Row<K>>, key: K, epoch: int)
    ensures StampsKeysExactly(rows, Upsert(rows, key, epoch), {key}, epoch)
  {
    UpsertSurvivesPrune(rows, key, epoch);
  }

  /** Appending a stamped CSS row stamps exactly that rule. */
  lemma AppendStampsCss(rows: seq<Row<CssRule>>, rule: CssRule, epoch: int)
    ensures StampsCssExactly(rows, rows + [Row(rule, epoch)], [rule], epoch)
  {
    PruneSnoc(rows, Row(rule, epoch), epoch);
    assert StampedCss([rule], epoch) == [Row(rule, epoch)];
  }

  /** A table left alone stamps nothing. */
  lemma KeepStampsNoCss(rows: seq<Row<CssRule>>, epoch: int)
    ensures StampsCssExactly(rows, rows, [], epoch)
  {
    assert StampedCss([], epoch) == [];
  }

  /** Saving one Adblock Plus line stamps exactly what it stores. */
  lemma RuleStampsExactly(t: RuleTables, rule: AbpRule, epoch: int)
    ensures StampsExactly(t, ApplyAbpRule(t, rule, epoch), RuleSeen(rule), epoch)
  {
    match rule
    case CssDefault(name) =>
      AppendStampsCss(t.css, CssRule(name, "", ""), epoch);
    case CssDomain(name, whitelist, blacklist) =>
      AppendStampsCss(t.css, CssRule(name, whitelist, blacklist), epoch);
    case Host(netloc) =>
      UpsertStampsKey(t.netlocs, netloc, epoch);
      KeepStampsNoCss(t.css, epoch);
    case DomainRegex(regex, domain) =>
      UpsertStampsKey(t.domainRegexes, DomainPattern(regex, domain), epoch);
      KeepStampsNoCss(t.css, epoch);
    case GlobalRegex(regex) =>
      UpsertStampsKey(t.regexes, regex, epoch);
      KeepStampsNoCss(t.css, epoch);
    case _ =>
      KeepStampsNoCss(t.css, epoch);
  }

  /** Saving Adblock Plus lines stamps exactly what they store. */
  lemma {:induction false} RulesStampExactly(t: RuleTables, rules: seq<AbpRule>, epoch: int)
    ensures StampsExactly(t, ApplyAbpRules(t, rules, epoch), RulesSeen(rules), epoch)
  {
    if rules == [] {
      assert StampedCss([], epoch) == [];
    } else {
      var init := rules[..|rules| - 1];
      var before := ApplyAbpRules(t, init, epoch);
      RulesStampExactly(t, init, epoch);
      RuleStampsExactly(before, rules[|rules| - 1], epoch);
      StampsExactlyCompose(t, before, ApplyAbpRules(t, rules, epoch), RulesSeen(init), RuleSeen(rules[|rules| - 1]), epoch);
    }
  }

  /** Saving one fetched source stamps exactly what it stores. */
  lemma SourceStampsExactly(t: RuleTables, uri: string, fetched: FetchResult, epoch: int, netlocOf: string -> string)
    ensures StampsExactly(t, ApplySource(t, uri, fetched, epoch, netlocOf), SourceSeen(uri, fetched, netlocOf), epoch)
  {
    assert StampedCss([], epoch) == [];
    match fetched
    case FetchFailed =>
    case Loaded(content) =>
      if uri in HostsUris {
        FoundStampedExactly(t.netlocs, ParseHostsLines(Lines(content)), epoch);
      } else {
        RulesStampExactly(t, ClassifyLines(Lines(content), netlocOf), epoch);
      }
  }

  /** A pass without exceptions stamps exactly what its sources store. */
  lemma {:induction false} SourcesStampExactly(t: RuleTables, uris: seq<string>, fetch: string -> FetchResult, epoch: int, netlocOf: string -> string)
    ensures StampsExactly(t, ApplySources(t, uris, fetch, epoch, netlocOf), SourcesSeen(uris, fetch, netlocOf), epoch)
    decreases |uris|
  {
    if uris == [] {
      assert StampedCss([], epoch) == [];
    } else {
      var next := ApplySource(t, uris[0], fetch(uris[0]), epoch, netlocOf);
      SourceStampsExactly(t, uris[0], fetch(uris[0]), epoch, netlocOf);
      SourcesStampExactly(next, uris[1..], fetch, epoch, netlocOf);
      StampsExactlyCompose(t, next, ApplySources(t, uris, fetch, epoch, netlocOf),
        SourceSeen(uris[0], fetch(uris[0]), netlocOf), SourcesSeen(uris[1..], fetch, netlocOf), epoch);
    }
  }

  /** No row of the tables carries the epoch. */
  ghost predicate NoneStamped(t: RuleTables, epoch: int) {
    && (forall i :: 0 <= i < |t.netlocs| ==> t.netlocs[i].mtime != epoch)
    && (forall i :: 0 <= i < |t.regexes| ==> t.regexes[i].mtime != epoch)
    && (forall i :: 0 <= i < |t.domainRegexes| ==> t.domainRegexes[i].mtime != epoch)
    && (forall i :: 0 <= i < |t.css| ==> t.css[i].mtime != epoch)
  }

  /**
   * Eviction: a completed pass whose epoch no row carried beforehand
   * leaves exactly what its sources store, so a rule dropped upstream is
   * gone after the prune.
   */
  lemma PassKeepsExactlyWhatItSaw(t: RuleTables, uris: seq<string>, fetch: string -> FetchResult, epoch: int, netlocOf: string -> string)
    requires NoneStamped(t, epoch)
    ensures var r := PruneAll(ApplySources(t, uris, fetch, epoch, netlocOf), epoch);
      var seen := SourcesSeen(uris, fetch, netlocOf);
      && Keys(r.netlocs) == seen.hosts
      && Keys(r.regexes) == seen.regexes
      && Keys(r.domainRegexes) == seen.domainPatterns
      && r.css == StampedCss(seen.css, epoch)
  {
    var after := ApplySources(t, uris, fetch, epoch, netlocOf);
    var seen := SourcesSeen(uris, fetch, netlocOf);
    SourcesStampExactly(t, uris, fetch, epoch, netlocOf);
    FreshEpochKeys(t.netlocs, after.netlocs, seen.hosts, epoch);
    FreshEpochKeys(t.regexes, after.regexes, seen.regexes, epoch);
    FreshEpochKeys(t.domainRegexes, after.domainRegexes, seen.domainPatterns, epoch);
    FreshEpochCss(t.css, after.css, seen.css, epoch);
  }

  /** With no CSS row stamped before, the rows kept by the prune are exactly those seen. */
  lemma FreshEpochCss(before: seq<Row<CssRule>>, after: seq<Row<CssRule>>, seen: seq<CssRule>, epoch: int)
    requires forall i :: 0 <= i < |before| ==> before[i].mtime != epoch
    requires StampsCssExactly(before, after, seen, epoch)
    ensures Prune(after, epoch) == StampedCss(seen, epoch)
  {
    NothingStamped(before, epoch);
    assert [] + StampedCss(seen, epoch) == StampedCss(seen, epoch);
  }

  /** With no row stamped before, the keys kept by the prune are exactly those seen. */
  lemma FreshEpochKeys<K>(before: seq<Row<K>>, after: seq<Row<K>>, seen: set<K>, epoch: int)
    requires forall i :: 0 <= i < |before| ==> before[i].mtime != epoch
    requires StampsKeysExactly(before, after, seen, epoch)
    ensures Keys(Prune(after, epoch)) == seen
  {
    NothingStamped(before, epoch);
    PruneKeys(after, epoch);
  }

  lemma {:induction false} NothingStamped<K>(rows: seq<Row<K>>, epoch: int)
    requires forall i :: 0 <= i < |rows| ==> rows[i].mtime != epoch
    ensures StampedKeys(rows, epoch) == {} && Prune(rows, epoch) == []
  {
    if rows != [] {
      NothingStamped(rows[1..], epoch);
    }
  }

  /**
   * The epoch is taken once, when the store is opened: a second pass with
   * the same epoch keeps every key the first one stamped and every CSS row
   * it appended, whether or not its sources still hold them.
   */
  lemma SameEpochKeepsEarlierPass(t: RuleTables, uris: seq<string>, fetch: string -> FetchResult, epoch: int, netlocOf: string -> string)
    ensures var r := PruneAll(ApplySources(t, uris, fetch, epoch, netlocOf), epoch);
      && StampedKeys(t.netlocs, epoch) <= Keys(r.netlocs)
      && StampedKeys(t.regexes, epoch) <= Keys(r.regexes)
      && StampedKeys(t.domainRegexes, epoch) <= Keys(r.domainRegexes)
      && Prune(t.css, epoch) <= r.css
  {
    var after := ApplySources(t, uris, fetch, epoch, netlocOf);
    SourcesStampExactly(t, uris, fetch, epoch, netlocOf);
    PruneAllReconciles(after, epoch);
  }

  // ------------------------------------------------------------ update throttle

  /** The sources of a pass: the hosts files, EasyList, then the regional list if there is one. */
  function SourceList(languageName: string): (uris: seq<string>)
    ensures |uris| >= 6 && uris[..5] == HostsUris && uris[5] == CssUris[0]
    ensures |uris| == 7 <==> Split(languageName, "_")[0] in LocalizedCssUris
    ensures |uris| == 6 || |uris| == 7
    ensures |uris| == 7 ==> uris[6] == LocalizedCssUris[Split(languageName, "_")[0]]
  {
    var userLocale := Split(languageName, "_")[0];
    HostsUris + CssUris + (if userLocale in LocalizedCssUris then [LocalizedCssUris[userLocale]] else [])
  }

  /** The first five sources are read as hosts files, the others as Adblock Plus lists. */
  lemma SourcesDispatch(languageName: string)
    ensures forall i :: 0 <= i < |SourceList(languageName)| ==> (SourceList(languageName)[i] in HostsUris <==> i < 5)
  {
    var uris := SourceList(languageName);
    assert forall u :: u in LocalizedCssUris.Values ==> u !in HostsUris;
  }

  /** Whether a pass starts, given the epoch and the recorded version. */
  predicate UpdateDue(epoch: int, version: int) {
    epoch - version > UpdateInterval
  }

  /**
   * The version `update` reads back, as written: `db_mtime` is not a pragma
   * SQLite knows, so recording it is ignored and reading it yields no row.
   */
  function StoredVersionAsWritten(recorded: Option<int>): int {
    0
  }

  /** The version as intended: the epoch of the last completed pass, or 0. */
  function StoredVersion(recorded: Option<int>): int {
    recorded.GetOr(0)
  }

  /**
   * As written, whatever pass was recorded, a pass is due exactly when the
   * clock is more than two days past the epoch: a pass that has just
   * completed does not hold back the next one.
   */
  lemma ThrottleIgnoredAsWritten(recorded: Option<int>, epoch: int)
    ensures UpdateDue(epoch, StoredVersionAsWritten(recorded)) <==> epoch > UpdateInterval
  {
  }

  /**
   * As intended, no pass starts within two days of a completed one, one
   * starts after, and a store that never completed a pass behaves as the
   * source does.
   */
  lemma ThrottleHolds(recorded: Option<int>, epoch: int)
    ensures recorded.Some? ==> (!UpdateDue(epoch, StoredVersion(recorded)) <==> epoch - recorded.value <= UpdateInterval)
    ensures recorded.Some? && recorded.value == epoch ==> !UpdateDue(epoch, StoredVersion(recorded))
    ensures recorded.None? ==> StoredVersion(recorded) == StoredVersionAsWritten(recorded)
  {
  }

  // ----------------------------------------------------------------- CSS queries

  /** Whether a CSS row is served: on no page in particular (`None`) or on the page whose host is given. */
  predicate ServedOn(rule: CssRule, page: Option<string>) {
    match page
    case None => rule.blacklist == "" && rule.whitelist == ""
    case Some(netloc) => (rule.blacklist != "" && rule.blacklist != netloc) || rule.whitelist == netloc
  }

  /** The names of the CSS rows served on the page, in table order. */
  function ServedNames(css: seq<Row<CssRule>>, page: Option<string>): (names: seq<string>)
    ensures |names| <= |css|
    ensures forall i :: 0 <= i < |css| && ServedOn(css[i].key, page) ==> css[i].key.name in names
    ensures forall n :: n in names ==> exists i :: 0 <= i < |css| && ServedOn(css[i].key, page) && css[i].key.name == n
  {
    if css == [] then []
    else
      var init := ServedNames(css[..|css| - 1], page);
      var last := css[|css| - 1];
      assert forall i :: 0 <= i < |css| - 1 ==> css[i] == css[..|css| - 1][i];
      init + (if ServedOn(last.key, page) then [last.key.name] else [])
  }

  /** The names keep table order: a row appended to the table adds its name at the end, exactly when it is served. */
  lemma ServedNamesSnoc(css: seq<Row<CssRule>>, row: Row<CssRule>, page: Option<string>)
    ensures ServedNames(css + [row], page) == ServedNames(css, page) + (if ServedOn(row.key, page) then [row.key.name] else [])
  {
    assert (css + [row])[..|css|] == css;
  }

  /** The stylesheet for a list of selectors: one rule hiding all of them. */
  function Stylesheet(names: seq<string>): (sheet: string)
    ensures names == [] ==> sheet == HideDeclaration
    ensures names != [] ==> sheet == Join(names, ",\n") + HideDeclaration
  {
    (if names == [] then "" else Join(names, ",\n")) + HideDeclaration
  }

  /** Python's `s[:-2]`. */
  function DropLastTwo(s: string): (r: string)
    ensures |s| >= 2 ==> r == s[..|s| - 2]
    ensures |s| < 2 ==> r == ""
  {
    if |s| >= 2 then s[..|s| - 2] else ""
  }

  /** Appending `name,\n` per name and cutting the last two characters gives the stylesheet. */
  lemma AccumulatedSheet(names: seq<string>)
    ensures DropLastTwo(Terminated(names, ",\n")) + HideDeclaration == Stylesheet(names)
  {
    if names != [] {
      TerminatedIsJoin(names, ",\n");
      var j := Join(names, ",\n");
      assert (j + ",\n")[..|j|] == j;
    }
  }

  /** A rule listing one domain is served on that domain's pages. */
  lemma SingleDomainServed(name: string, domain: string)
    requires domain != "" && domain[0] != '~' && ',' !in domain
    ensures ServedOn(CssRule(name, Whitelist([domain]), Blacklist([domain])), Some(domain))
  {
  }

  /**
   * The domains of a rule are concatenated without a separator, so a rule
   * listing two domains is served on neither of them.
   */
  lemma TwoDomainsServedOnNeither(name: string)
    ensures !ServedOn(CssRule(name, Whitelist(["a.com", "b.com"]), Blacklist(["a.com", "b.com"])), Some("a.com"))
    ensures !ServedOn(CssRule(name, Whitelist(["a.com", "b.com"]), Blacklist(["a.com", "b.com"])), Some("b.com"))
  {
    var a, b := "a.com", "b.com";
    assert !StartsWith(a, "~") && !StartsWith(b, "~") by {
      assert a[0] == 'a' && b[0] == 'b';
      assert a[..1][0] != '~' && b[..1][0] != '~';
    }
    assert Whitelist([a]) == a by {
      var none: seq<string> := [];
      assert [a][..0] == none;
    }
    assert Whitelist([a, b]) == a + b by {
      assert [a, b][..1] == [a];
    }
    assert a + b == "a.comb.com";
    assert Blacklist([a, b]) == "";
  }

  // ------------------------------------------------ CSS domains as intended

  /** The domains of a `domains##selector` rule kept apart: those listed, and those negated, without their `~`. */
  datatype DomainSets = DomainSets(listed: seq<string>, negated: seq<string>)

  /** The comma-separated domains of a rule sorted into listed and negated ones. */
  function SplitDomains(domains: seq<string>): (r: DomainSets)
    ensures forall d :: d in r.listed <==> d in domains && !StartsWith(d, "~")
    ensures forall d :: d in r.negated <==> exists x :: x in domains && StartsWith(x, "~") && x[1..] == d
  {
    if domains == [] then DomainSets([], [])
    else
      var init := SplitDomains(domains[..|domains| - 1]);
      var d := domains[|domains| - 1];
      assert domains == domains[..|domains| - 1] + [d];
      if StartsWith(d, "~") then DomainSets(init.listed, init.negated + [d[1..]])
      else DomainSets(init.listed + [d], init.negated)
  }

  /**
   * Whether a rule is served on a page as intended, with the same shape as
   * the query of `get_css_rules`: a rule with negated domains everywhere but
   * on them, and a rule on each domain it lists.
   */
  predicate ServedOnIntended(r: DomainSets, netloc: string) {
    (r.negated != [] && netloc !in r.negated) || netloc in r.listed
  }

  /** As intended, a rule is served on every domain it lists, however many. */
  lemma ListedDomainServedIntended(domains: seq<string>, netloc: string)
    requires netloc in domains && !StartsWith(netloc, "~")
    ensures ServedOnIntended(SplitDomains(domains), netloc)
  {
  }

  /** As intended, a rule is not served on a domain it negates (and does not also list). */
  lemma NegatedDomainHiddenIntended(domains: seq<string>, d: string)
    requires "~" + d in domains && d !in domains
    ensures !ServedOnIntended(SplitDomains(domains), d)
  {
    assert StartsWith("~" + d, "~") && ("~" + d)[1..] == d;
  }

  /** For a rule with a single plain domain, the stored form and the intended one agree on every page. */
  lemma SingleDomainAgrees(name: string, domain: string, netloc: string)
    requires domain != "" && domain[0] != '~'
    ensures ServedOn(CssRule(name, Whitelist([domain]), Blacklist([domain])), Some(netloc))
      <==> ServedOnIntended(SplitDomains([domain]), netloc)
  {
    var none: seq<string> := [];
    assert [domain][..0] == none;
    assert !StartsWith(domain, "~") by { assert domain[..1][0] == domain[0]; }
    assert Whitelist([domain]) == domain;
  }

  /** A rule with a negated domain is served on every page, the negated one included. */
  lemma NegatedDomainStillServed(rule: CssRule, netloc: string, domains: seq<string>)
    requires rule.blacklist == Blacklist(domains)
    requires exists d :: d in domains && StartsWith(d, "~")
    requires '@' !in netloc
    ensures ServedOn(rule, Some(netloc))
  {
    BlacklistNeverMatchesHost(domains, netloc);
  }
}
