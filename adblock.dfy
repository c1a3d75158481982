/**
 * `DatabaseAdblock`: the ad-block store with its four rule tables, the
 * allowed-URI cache, the memoised union of global regexes and the
 * cancellable update pass. Every method is proved against the functions of
 * `AdblockRules` and `RuleCompiler`.
 */
module Adblock {
  import opened Wrappers
  import opened Strings
  import opened Url
  import opened Tables
  import opened RuleCompiler
  import opened AdblockRules

  /** Some pattern of the union matches the text: how the joined `a|b|c` is read. */
  predicate AnyMatch(search: RegexSearch, patterns: seq<string>, text: string) {
    exists i :: 0 <= i < |patterns| && search(patterns[i], text)
  }

  /** The regexes of `adblock_re`, in table order. */
  function RegexList(rows: seq<Row<string>>): (rs: seq<string>)
    ensures |rs| == |rows| && forall i :: 0 <= i < |rows| ==> rs[i] == rows[i].key
  {
    if rows == [] then [] else [rows[0].key] + RegexList(rows[1..])
  }

  /** The regexes of `adblock_re_domain` scoped to the netloc, in table order. */
  function DomainRegexList(rows: seq<Row<DomainPattern>>, netloc: string): (rs: seq<string>)
    ensures forall r :: r in rs <==> exists i :: 0 <= i < |rows| && rows[i].key == DomainPattern(r, netloc)
  {
    if rows == [] then []
    else
      var rest := DomainRegexList(rows[1..], netloc);
      assert forall i :: 1 <= i < |rows| ==> rows[i] == rows[1..][i - 1];
      (if rows[0].key.domain == netloc then [rows[0].key.regex] else []) + rest
  }

  /** A counter reset every 100 steps has committed the quotient of the steps by 100. */
  lemma BatchCount(batches: int, count: int, steps: int)
    requires 0 <= count < 100 && 100 * batches + count == steps
    ensures batches == steps / 100
  {
  }

  class DatabaseAdblock {
    /** The epoch of this run (`__adblock_mtime`): rows saved in this run carry it. */
    const adblockMtime: int
    /** `re.search`. */
    const search: RegexSearch
    /** `urlparse` and `remove_www`. */
    const url: UrlHelpers

    var netlocs: seq<Row<string>>
    var regexes: seq<Row<string>>
    var domainRegexes: seq<Row<DomainPattern>>
    var css: seq<Row<CssRule>>
    /** `adblock_cache`: the URIs found not blocked. */
    var cache: seq<string>
    /** The epoch of the last completed pass, as it is meant to be recorded. */
    var dbMtime: Option<int>
    /** `self.__regex`: the global regexes compiled into one union, once. */
    var compiled: Option<seq<string>>
    /** The state of `self.__cancellable`. */
    var cancelled: bool
    /** How many times the save loops committed a batch of 100 lines. */
    var commits: nat

    function Tables(): RuleTables
      reads this`netlocs, this`regexes, this`domainRegexes, this`css
    {
      RuleTables(netlocs, regexes, domainRegexes, css)
    }

    /** One row per key in the upserted tables. */
    ghost predicate Valid()
      reads this`netlocs, this`regexes, this`domainRegexes, this`css
    {
      TablesValid(Tables())
    }

    /** A store opened on the tables left on disk by earlier runs. */
    constructor (epoch: int, search: RegexSearch, url: UrlHelpers, stored: RuleTables, storedCache: seq<string>, recorded: Option<int>)
      ensures adblockMtime == epoch && this.search == search && this.url == url
      ensures Tables() == stored && cache == storedCache && dbMtime == recorded
      ensures compiled == None && !cancelled && commits == 0
    {
      adblockMtime := epoch;
      this.search := search;
      this.url := url;
      netlocs, regexes, domainRegexes, css := stored.netlocs, stored.regexes, stored.domainRegexes, stored.css;
      cache := storedCache;
      dbMtime := recorded;
      compiled := None;
      cancelled := false;
      commits := 0;
    }

    // -------------------------------------------------------------- upserts

    method AddNetloc(netloc: string)
      modifies this`netlocs
      ensures netlocs == Upsert(old(netlocs), netloc, adblockMtime)
    {
      if !HasKey(netlocs, netloc) {
        netlocs := netlocs + [Row(netloc, adblockMtime)];
      } else {
        netlocs := Restamp(netlocs, netloc, adblockMtime);
      }
    }

    method AddRegex(regex: string)
      modifies this`regexes
      ensures regexes == Upsert(old(regexes), regex, adblockMtime)
    {
      if !HasKey(regexes, regex) {
        regexes := regexes + [Row(regex, adblockMtime)];
      } else {
        regexes := Restamp(regexes, regex, adblockMtime);
      }
    }

    method AddRegexDomain(regex: string, domain: string)
      modifies this`domainRegexes
      ensures domainRegexes == Upsert(old(domainRegexes), DomainPattern(regex, domain), adblockMtime)
    {
      var key := DomainPattern(regex, domain);
      if !HasKey(domainRegexes, key) {
        domainRegexes := domainRegexes + [Row(key, adblockMtime)];
      } else {
        domainRegexes := Restamp(domainRegexes, key, adblockMtime);
      }
    }

    // ---------------------------------------------------------- CSS inserts

    /** `__save_css_default_rule`: the selector after `##`, inserted without lists. */
    method SaveCssDefaultRule(line: string)
      modifies this`css
      ensures css == old(css) + [Row(CssRule(if |line| >= 2 then line[2..] else "", "", ""), adblockMtime)]
    {
      var name := if |line| >= 2 then line[2..] else "";
      css := css + [Row(CssRule(name, "", ""), adblockMtime)];
    }

    /** `__save_css_domain_rule`: raises unless the line splits into exactly two parts at `##`. */
    method SaveCssDomainRule(line: string) returns (raised: bool)
      modifies this`css
      ensures raised == CssDomainRule(line).MalformedCss?
      ensures Tables() == ApplyAbpRule(old(Tables()), CssDomainRule(line), adblockMtime)
    {
      var parts := Split(line, "##");
      if |parts| != 2 {
        return true;
      }
      var whitelist, blacklist := DomainLists(Split(parts[0], ","));
      assert CssDomainRule(line) == CssDomain(parts[1], whitelist, blacklist);
      css := css + [Row(CssRule(parts[1], whitelist, blacklist), adblockMtime)];
      raised := false;
    }

    /** The loop of `__save_css_domain_rule` over the domains of a rule. */
    method DomainLists(domains: seq<string>) returns (whitelist: string, blacklist: string)
      ensures whitelist == Whitelist(domains) && blacklist == Blacklist(domains)
    {
      whitelist, blacklist := "", "";
      var i := 0;
      while i < |domains|
        invariant 0 <= i <= |domains|
        invariant whitelist == Whitelist(domains[..i]) && blacklist == Blacklist(domains[..i])
      {
        var domain := domains[i];
        assert domains[..i + 1][..i] == domains[..i];
        if StartsWith(domain, "~") {
          blacklist := blacklist + "@" + domain[1..] + "@";
        } else {
          whitelist := whitelist + domain;
        }
        i := i + 1;
      }
      assert domains[..i] == domains;
    }

    // ------------------------------------------------------------ rule saves

    /** `__save_abp_rule`: a host, a domain regex or a global regex; `||` alone raises. */
    method SaveAbpRule(rule: string) returns (raised: bool)
      modifies this`netlocs, this`regexes, this`domainRegexes
      ensures raised == AbpRuleOf(rule, url.netloc).NullRegex?
      ensures Tables() == ApplyAbpRule(old(Tables()), AbpRuleOf(rule, url.netloc), adblockMtime)
    {
      if |rule| >= 2 && rule[..2] == "||" {
        raised := SaveAnchoredRule(rule);
      } else {
        raised := false;
        var regex := RuleToRegex(rule);
        if regex.Some? {
          assert AbpRuleOf(rule, url.netloc) == GlobalRegex(regex.value);
          AddRegex(regex.value);
        } else {
          assert AbpRuleOf(rule, url.netloc) == NoRule;
        }
      }
    }

    /** The `||` branch of `__save_abp_rule`. */
    method SaveAnchoredRule(rule: string) returns (raised: bool)
      requires |rule| >= 2 && rule[..2] == "||"
      modifies this`netlocs, this`regexes, this`domainRegexes
      ensures raised == AbpRuleOf(rule, url.netloc).NullRegex?
      ensures Tables() == ApplyAbpRule(old(Tables()), AbpRuleOf(rule, url.netloc), adblockMtime)
    {
      if rule[|rule| - 1] == '^' {
        assert AbpRuleOf(rule, url.netloc) == Host(rule[2..|rule| - 1]);
        AddNetloc(rule[2..|rule| - 1]);
        raised := false;
      } else {
        raised := SaveAnchoredRegex(rule);
      }
    }

    /** A `||` rule that does not end with `^`: a domain regex, a global regex, or `||` alone, which raises. */
    method SaveAnchoredRegex(rule: string) returns (raised: bool)
      requires |rule| >= 2 && rule[..2] == "||" && rule[|rule| - 1] != '^'
      modifies this`regexes, this`domainRegexes
      ensures raised == AbpRuleOf(rule, url.netloc).NullRegex?
      ensures Tables() == ApplyAbpRule(old(Tables()), AbpRuleOf(rule, url.netloc), adblockMtime)
    {
      AnchoredRegexRule(rule, url.netloc);
      raised := false;
      var regex := RuleToRegex(rule[2..]);
      var domain := url.netloc(AnchoredUri(rule));
      if regex.None? {
        raised := true;
      } else if domain != "" {
        AddRegexDomain(regex.value, domain);
      } else {
        AddRegex(regex.value);
      }
    }

    /** `self.__cancellable.is_cancelled()`: a `stop` from another thread may land at any check. */
    method IsCancelled() returns (c: bool)
      modifies this`cancelled
      ensures c == cancelled && (old(cancelled) ==> cancelled)
    {
      var stopped: bool := *;
      if stopped {
        cancelled := true;
      }
      c := cancelled;
    }

    /** `stop`. */
    method Stop()
      modifies this`cancelled
      ensures cancelled
    {
      cancelled := true;
    }

    /**
     * `__save_rules`: every line of a hosts file until done or cancelled,
     * a commit every 100 stored netlocs.
     */
    method SaveRules(content: string) returns (outcome: SaveOutcome, processed: nat)
      modifies this`netlocs, this`cancelled, this`commits
      ensures outcome != Raised
      ensures processed <= |Lines(content)|
      ensures outcome == Saved ==> processed == |Lines(content)|
      ensures outcome == Cancelled ==> cancelled
      ensures old(cancelled) ==> cancelled
      ensures netlocs == ApplyAllFound(old(netlocs), ParseHostsLines(Lines(content))[..processed], adblockMtime)
      ensures commits == old(commits) + FoundCount(ParseHostsLines(Lines(content))[..processed]) / 100
    {
      outcome, processed := SaveHostsLines(Lines(content));
    }

    method SaveHostsLines(lines: seq<string>) returns (outcome: SaveOutcome, processed: nat)
      modifies this`netlocs, this`cancelled, this`commits
      ensures outcome != Raised
      ensures processed <= |lines|
      ensures outcome == Saved ==> processed == |lines|
      ensures outcome == Cancelled ==> cancelled
      ensures old(cancelled) ==> cancelled
      ensures netlocs == ApplyAllFound(old(netlocs), ParseHostsLines(lines)[..processed], adblockMtime)
      ensures commits == old(commits) + FoundCount(ParseHostsLines(lines)[..processed]) / 100
    {
      ghost var found := ParseHostsLines(lines);
      var count := 0;
      processed := 0;
      outcome := Saved;
      while processed < |lines|
        invariant processed <= |lines|
        invariant old(cancelled) ==> cancelled
        invariant netlocs == ApplyAllFound(old(netlocs), found[..processed], adblockMtime)
        invariant 0 <= count < 100 && commits >= old(commits)
        invariant 100 * (commits - old(commits)) + count == FoundCount(found[..processed])
      {
        var c := IsCancelled();
        if c {
          outcome := Cancelled;
          break;
        }
        FoundStep(old(netlocs), found, processed, adblockMtime);
        count := SaveAndCountHostsLine(lines, processed, count);
        processed := processed + 1;
      }
      BatchCount(commits - old(commits), count, FoundCount(found[..processed]));
    }

    /** The body of the `__save_rules` loop for line `i`, with its count. */
    method SaveAndCountHostsLine(lines: seq<string>, i: nat, count: nat) returns (next: nat)
      requires i < |lines| && count < 100
      modifies this`netlocs, this`commits
      ensures netlocs == ApplyFound(old(netlocs), ParseHostsLines(lines)[i], adblockMtime)
      ensures next < 100
      ensures 100 * commits + next == 100 * old(commits) + count + (if ParseHostsLines(lines)[i].Some? then 1 else 0)
    {
      var stored := SaveHostsLine(lines, i);
      next := count;
      if stored {
        next := CountLine(count);
      }
    }

    /** One more counted line; the 100th commits the batch and restarts the count. */
    method CountLine(count: nat) returns (next: nat)
      requires count < 100
      modifies this`commits
      ensures next < 100
      ensures 100 * commits + next == 100 * old(commits) + count + 1
    {
      next := count + 1;
      if next == 100 {
        commits := commits + 1;
        next := 0;
      }
    }

    /** The body of the `__save_rules` loop for line `i`, up to its count. */
    method SaveHostsLine(lines: seq<string>, i: nat) returns (stored: bool)
      requires i < |lines|
      modifies this`netlocs
      ensures stored == ParseHostsLines(lines)[i].Some?
      ensures netlocs == ApplyFound(old(netlocs), ParseHostsLines(lines)[i], adblockMtime)
    {
      ParsedAt(lines, i);
      var netloc := HostsLineNetloc(lines[i]);
      stored := netloc.Some?;
      if stored {
        AddNetloc(netloc.value);
      }
    }

    /** `__save_abp_rules`: an Adblock Plus list, split into lines. */
    method SaveAbpRules(content: string) returns (outcome: SaveOutcome, processed: nat)
      modifies this`netlocs, this`regexes, this`domainRegexes, this`css, this`cancelled, this`commits
      ensures processed <= |Lines(content)|
      ensures outcome == Saved ==> processed == |Lines(content)|
      ensures outcome == Cancelled ==> cancelled
      ensures outcome == Raised ==> processed < |Lines(content)| && ClassifyLines(Lines(content), url.netloc)[processed].Raises()
      ensures forall i :: 0 <= i < processed ==> !ClassifyLines(Lines(content), url.netloc)[i].Raises()
      ensures old(cancelled) ==> cancelled
      ensures Tables() == ApplyAbpRules(old(Tables()), ClassifyLines(Lines(content), url.netloc)[..processed], adblockMtime)
      ensures commits == old(commits) + AbpCounted(ClassifyLines(Lines(content), url.netloc)[..processed]) / 100
    {
      outcome, processed := SaveAbpLines(Lines(content));
    }

    /**
     * The loop of `__save_abp_rules`: every line until done, cancelled or an
     * exception, a commit every 100 counted lines.
     */
    method SaveAbpLines(lines: seq<string>) returns (outcome: SaveOutcome, processed: nat)
      modifies this`netlocs, this`regexes, this`domainRegexes, this`css, this`cancelled, this`commits
      ensures processed <= |lines|
      ensures outcome == Saved ==> processed == |lines|
      ensures outcome == Cancelled ==> cancelled
      ensures outcome == Raised ==> processed < |lines| && ClassifyLines(lines, url.netloc)[processed].Raises()
      ensures forall i :: 0 <= i < processed ==> !ClassifyLines(lines, url.netloc)[i].Raises()
      ensures old(cancelled) ==> cancelled
      ensures Tables() == ApplyAbpRules(old(Tables()), ClassifyLines(lines, url.netloc)[..processed], adblockMtime)
      ensures commits == old(commits) + AbpCounted(ClassifyLines(lines, url.netloc)[..processed]) / 100
    {
      ghost var rules := ClassifyLines(lines, url.netloc);
      forall i | 0 <= i < |lines|
        ensures rules[i] == ClassifyAbp(lines[i], url.netloc)
      {
        ClassifiedAt(lines, url.netloc, i);
      }
      outcome, processed := SaveClassifiedLines(lines, rules);
    }

    /** The loop of `__save_abp_rules`, with `rules[i]` the rule of line `i`. */
    method SaveClassifiedLines(lines: seq<string>, ghost rules: seq<AbpRule>) returns (outcome: SaveOutcome, processed: nat)
      requires |rules| == |lines|
      requires forall i {:trigger ClassifyAbp(lines[i], url.netloc)} :: 0 <= i < |lines| ==> rules[i] == ClassifyAbp(lines[i], url.netloc)
      modifies this`netlocs, this`regexes, this`domainRegexes, this`css, this`cancelled, this`commits
      ensures processed <= |lines|
      ensures outcome == Saved ==> processed == |lines|
      ensures outcome == Cancelled ==> cancelled
      ensures outcome == Raised ==> processed < |lines| && rules[processed].Raises()
      ensures forall i :: 0 <= i < processed ==> !rules[i].Raises()
      ensures old(cancelled) ==> cancelled
      ensures Tables() == ApplyAbpRules(old(Tables()), rules[..processed], adblockMtime)
      ensures commits == old(commits) + AbpCounted(rules[..processed]) / 100
    {
      var count := 0;
      processed := 0;
      outcome := Saved;
      while processed < |lines|
        invariant processed <= |lines|
        invariant old(cancelled) ==> cancelled
        invariant forall i :: 0 <= i < processed ==> !rules[i].Raises()
        invariant Tables() == ApplyAbpRules(old(Tables()), rules[..processed], adblockMtime)
        invariant 0 <= count < 100 && commits >= old(commits)
        invariant 100 * (commits - old(commits)) + count == AbpCounted(rules[..processed])
      {
        var stepOutcome;
        stepOutcome, count := SaveAbpStep(lines[processed], rules, processed, count, old(Tables()), old(commits));
        if stepOutcome != Saved {
          outcome := stepOutcome;
          break;
        }
        processed := processed + 1;
      }
      BatchCount(commits - old(commits), count, AbpCounted(rules[..processed]));
    }

    /**
     * One turn of the `__save_abp_rules` loop on line `p`, whose rule is
     * `rules[p]`: the cancellation check, then the save and its count.
     */
    method SaveAbpStep(line: string, ghost rules: seq<AbpRule>, p: nat, count: nat, ghost start: RuleTables, ghost startCommits: int)
      returns (outcome: SaveOutcome, next: nat)
      requires p < |rules| && rules[p] == ClassifyAbp(line, url.netloc)
      requires Tables() == ApplyAbpRules(start, rules[..p], adblockMtime)
      requires 0 <= count < 100 && commits >= startCommits
      requires 100 * (commits - startCommits) + count == AbpCounted(rules[..p])
      modifies this`netlocs, this`regexes, this`domainRegexes, this`css, this`cancelled, this`commits
      ensures old(cancelled) ==> cancelled
      ensures outcome == Cancelled ==> cancelled
      ensures outcome == Raised ==> rules[p].Raises()
      ensures outcome != Saved ==> Tables() == old(Tables()) && commits == old(commits) && next == count
      ensures outcome == Saved ==> !rules[p].Raises() && Tables() == ApplyAbpRules(start, rules[..p + 1], adblockMtime)
      ensures outcome == Saved ==> 0 <= next < 100 && commits >= startCommits
      ensures outcome == Saved ==> 100 * (commits - startCommits) + next == AbpCounted(rules[..p + 1])
    {
      next := count;
      var c := IsCancelled();
      if c {
        return Cancelled, next;
      }
      AbpRulesStep(start, rules, p, adblockMtime);
      var raised;
      raised, next := SaveAndCountAbpLine(line, rules[p], count);
      outcome := if raised then Raised else Saved;
    }

    /** The body of the `__save_abp_rules` loop for one line, with its count. */
    method SaveAndCountAbpLine(line: string, ghost rule: AbpRule, count: nat) returns (raised: bool, next: nat)
      requires rule == ClassifyAbp(line, url.netloc) && count < 100
      modifies this`netlocs, this`regexes, this`domainRegexes, this`css, this`commits
      ensures raised == rule.Raises()
      ensures Tables() == ApplyAbpRule(old(Tables()), rule, adblockMtime)
      ensures raised ==> commits == old(commits) && next == count && Tables() == old(Tables())
      ensures !raised ==> next < 100
      ensures !raised ==> 100 * commits + next == 100 * old(commits) + count + (if rule.Counted() then 1 else 0)
    {
      var skipped;
      raised, skipped := SaveAbpLine(line);
      next := count;
      if !raised && !skipped {
        next := CountLine(count);
      }
    }

    /** The body of the `__save_abp_rules` loop for one line, up to its count. */
    method SaveAbpLine(line: string) returns (raised: bool, skipped: bool)
      modifies this`netlocs, this`regexes, this`domainRegexes, this`css
      ensures raised == ClassifyAbp(line, url.netloc).Raises()
      ensures skipped == ClassifyAbp(line, url.netloc).Skipped?
      ensures Tables() == ApplyAbpRule(old(Tables()), ClassifyAbp(line, url.netloc), adblockMtime)
    {
      raised := false;
      skipped := SkippedLine(line);
      if skipped {
      } else if StartsWith(line, "##") {
        SaveCssDefaultRule(line);
      } else if Contains(line, "##") {
        raised := SaveCssDomainRule(line);
      } else if Contains(line, "@@") || Contains(line, "#@#") {
      } else {
        raised := SaveAbpRule(line);
      }
    }

    // -------------------------------------------------------------- a pass

    /**
     * The save `__on_load_uri_content` schedules for a loaded source: a
     * hosts source goes to `__save_rules`, any other to `__save_abp_rules`.
     * A save that ends normally leaves the tables `ApplySource` describes;
     * any save deletes nothing.
     */
    method SaveSource(uri: string, content: string) returns (outcome: SaveOutcome)
      modifies this`netlocs, this`regexes, this`domainRegexes, this`css, this`cancelled, this`commits
      ensures outcome == Saved ==> Tables() == ApplySource(old(Tables()), uri, Loaded(content), adblockMtime, url.netloc)
      ensures Grows(old(Tables()), Tables())
      ensures old(Valid()) ==> Valid()
    {
      ghost var before := Tables();
      var processed;
      if uri in HostsUris {
        outcome, processed := SaveRules(content);
        ghost var found := ParseHostsLines(Lines(content));
        FoundKeepKeys(before.netlocs, found[..processed], adblockMtime);
        assert processed == |found| ==> found[..processed] == found;
      } else {
        outcome, processed := SaveAbpRules(content);
        ghost var rules := ClassifyLines(Lines(content), url.netloc);
        AbpRulesGrow(before, rules[..processed], adblockMtime);
        assert processed == |rules| ==> rules[..processed] == rules;
      }
    }

    /**
     * `__on_load_uri_content`: a failed fetch skips the source, a loaded
     * one is saved; only a save that ends without an exception or a
     * cancellation calls `__on_save_rules` with the remaining sources.
     */
    method OnLoadUriContent(uri: string, fetched: FetchResult, uris: seq<string>, fetch: string -> FetchResult) returns (completed: bool)
      modifies this`netlocs, this`regexes, this`domainRegexes, this`css, this`cancelled, this`commits, this`cache, this`dbMtime
      decreases |uris| + 1, 0
      ensures completed ==> !cancelled && cache == [] && dbMtime == Some(adblockMtime)
      ensures completed ==> Tables() == PruneAll(ApplySources(ApplySource(old(Tables()), uri, fetched, adblockMtime, url.netloc), uris, fetch, adblockMtime, url.netloc), adblockMtime)
      ensures !completed ==> cache == old(cache) && dbMtime == old(dbMtime) && Grows(old(Tables()), Tables())
      ensures old(Valid()) ==> Valid()
    {
      match fetched
      case FetchFailed =>
        completed := OnSaveRules(uris, fetch);
      case Loaded(content) =>
        ghost var before := Tables();
        var outcome := SaveSource(uri, content);
        if outcome == Saved {
          ghost var mid := Tables();
          completed := OnSaveRules(uris, fetch);
          if !completed {
            GrowsTransitive(before, mid, Tables());
          }
        } else {
          completed := false;
        }
    }

    /**
     * `__on_save_rules`: nothing if cancelled; the next source if one is
     * left; otherwise the reconciliation that ends the pass.
     */
    method OnSaveRules(uris: seq<string>, fetch: string -> FetchResult) returns (completed: bool)
      modifies this`netlocs, this`regexes, this`domainRegexes, this`css, this`cancelled, this`commits, this`cache, this`dbMtime
      decreases |uris|, 1
      ensures completed ==> !cancelled && cache == [] && dbMtime == Some(adblockMtime)
      ensures completed ==> Tables() == PruneAll(ApplySources(old(Tables()), uris, fetch, adblockMtime, url.netloc), adblockMtime)
      ensures !completed ==> cache == old(cache) && dbMtime == old(dbMtime) && Grows(old(Tables()), Tables())
      ensures old(Valid()) ==> Valid()
    {
      var c := IsCancelled();
      if c {
        return false;
      }
      if uris != [] {
        completed := OnLoadUriContent(uris[0], fetch(uris[0]), uris[1..], fetch);
      } else {
        Reconcile();
        completed := true;
      }
    }

    /**
     * The end of a pass in `__on_save_rules`: every row not saved in this
     * run is deleted, the URI cache is emptied and the run's epoch becomes
     * the stored version.
     */
    method Reconcile()
      modifies this`netlocs, this`regexes, this`domainRegexes, this`css, this`cache, this`dbMtime
      ensures Tables() == PruneAll(old(Tables()), adblockMtime)
      ensures cache == [] && dbMtime == Some(adblockMtime)
      ensures old(Valid()) ==> Valid()
    {
      if Valid() {
        PruneAllValid(Tables(), adblockMtime);
      }
      netlocs := Prune(netlocs, adblockMtime);
      regexes := Prune(regexes, adblockMtime);
      domainRegexes := Prune(domainRegexes, adblockMtime);
      css := Prune(css, adblockMtime);
      cache := [];
      dbMtime := Some(adblockMtime);
    }

    /**
     * `update` as the source runs it: with the network up, the cancellable
     * is reset and the version is read back, which as written is always 0,
     * so a pass over the source list starts on every call once the clock is
     * two days past the epoch, however recent the last completed pass.
     */
    method Update(networkAvailable: bool, languageName: string, fetch: string -> FetchResult) returns (started: bool, completed: bool)
      modifies this`netlocs, this`regexes, this`domainRegexes, this`css, this`cancelled, this`commits, this`cache, this`dbMtime
      ensures started <==> networkAvailable && adblockMtime > UpdateInterval
      ensures !networkAvailable ==> Tables() == old(Tables()) && cancelled == old(cancelled)
      ensures networkAvailable && !started ==> Tables() == old(Tables()) && !cancelled
      ensures completed ==> started && cache == [] && dbMtime == Some(adblockMtime)
      ensures completed ==> Tables() == PruneAll(ApplySources(old(Tables()), SourceList(languageName), fetch, adblockMtime, url.netloc), adblockMtime)
      ensures !completed ==> cache == old(cache) && dbMtime == old(dbMtime) && Grows(old(Tables()), Tables())
      ensures old(Valid()) ==> Valid()
    {
      ThrottleIgnoredAsWritten(dbMtime, adblockMtime);
      started, completed := UpdateFrom(networkAvailable, StoredVersionAsWritten(dbMtime), languageName, fetch);
    }

    /**
     * `update` with the version read back as intended: no pass starts
     * within two days of the last completed one, in particular not right
     * after one.
     */
    method UpdateIntended(networkAvailable: bool, languageName: string, fetch: string -> FetchResult) returns (started: bool, completed: bool)
      modifies this`netlocs, this`regexes, this`domainRegexes, this`css, this`cancelled, this`commits, this`cache, this`dbMtime
      ensures started <==> networkAvailable && UpdateDue(adblockMtime, StoredVersion(old(dbMtime)))
      ensures old(dbMtime) == Some(adblockMtime) ==> !started && Tables() == old(Tables())
      ensures !networkAvailable ==> Tables() == old(Tables()) && cancelled == old(cancelled)
      ensures networkAvailable && !started ==> Tables() == old(Tables()) && !cancelled
      ensures completed ==> started && cache == [] && dbMtime == Some(adblockMtime)
      ensures completed ==> Tables() == PruneAll(ApplySources(old(Tables()), SourceList(languageName), fetch, adblockMtime, url.netloc), adblockMtime)
      ensures !completed ==> cache == old(cache) && dbMtime == old(dbMtime) && Grows(old(Tables()), Tables())
      ensures old(Valid()) ==> Valid()
    {
      ThrottleHolds(dbMtime, adblockMtime);
      started, completed := UpdateFrom(networkAvailable, StoredVersion(dbMtime), languageName, fetch);
    }

    /** The body of `update` once the version has been read. */
    method UpdateFrom(networkAvailable: bool, version: int, languageName: string, fetch: string -> FetchResult) returns (started: bool, completed: bool)
      modifies this`netlocs, this`regexes, this`domainRegexes, this`css, this`cancelled, this`commits, this`cache, this`dbMtime
      ensures started <==> networkAvailable && UpdateDue(adblockMtime, version)
      ensures !networkAvailable ==> Tables() == old(Tables()) && cancelled == old(cancelled)
      ensures networkAvailable && !started ==> Tables() == old(Tables()) && !cancelled
      ensures completed ==> started && cache == [] && dbMtime == Some(adblockMtime)
      ensures completed ==> Tables() == PruneAll(ApplySources(old(Tables()), SourceList(languageName), fetch, adblockMtime, url.netloc), adblockMtime)
      ensures !completed ==> cache == old(cache) && dbMtime == old(dbMtime) && Grows(old(Tables()), Tables())
      ensures old(Valid()) ==> Valid()
    {
      started, completed := false, false;
      if !networkAvailable {
        return;
      }
      cancelled := false;
      if UpdateDue(adblockMtime, version) {
        started := true;
        var uris := SourceList(languageName);
        completed := OnLoadUriContent(uris[0], fetch(uris[0]), uris[1..], fetch);
        assert uris == [uris[0]] + uris[1..];
      }
    }

    // --------------------------------------------------------------- queries

    /** `is_netloc_blocked`: an exact lookup in the host table. */
    method IsNetlocBlocked(netloc: string) returns (blocked: bool)
      ensures blocked <==> exists i :: 0 <= i < |netlocs| && netlocs[i].key == netloc
    {
      blocked := netloc in Keys(netlocs);
    }

    /**
     * `is_uri_blocked`: a cached URI is allowed; otherwise the URI is blocked
     * when the global union (compiled on first use, from a non-empty table,
     * and never again) or the netloc's domain regexes match it, and an
     * allowed URI is cached.
     */
    method IsUriBlocked(uri: string, netloc: string) returns (blocked: bool)
      modifies this`compiled, this`cache
      ensures uri in old(cache) ==> !blocked && compiled == old(compiled) && cache == old(cache)
      ensures uri !in old(cache) ==> compiled == if old(compiled) == None && regexes != [] then Some(RegexList(regexes)) else old(compiled)
      ensures uri !in old(cache) ==> (blocked <==> (compiled.Some? && AnyMatch(search, compiled.value, uri)) || AnyMatch(search, DomainRegexList(domainRegexes, netloc), uri))
      ensures cache == if uri in old(cache) || blocked then old(cache) else old(cache) + [uri]
    {
      if uri in cache {
        return false;
      }
      if compiled == None {
        var rules := RegexList(regexes);
        if rules != [] {
          compiled := Some(rules);
        }
      }
      var blockedRe := compiled.Some? && AnyMatch(search, compiled.value, uri);
      var rules := DomainRegexList(domainRegexes, netloc);
      var blockedReDomain := rules != [] && AnyMatch(search, rules, uri);
      if !blockedRe && !blockedReDomain {
        cache := cache + [uri];
        return false;
      }
      blocked := true;
    }

    /** The loop both CSS queries run: each served name followed by `,\n`, the last two characters cut, the declaration appended. */
    method BuildStylesheet(page: Option<string>) returns (sheet: string)
      ensures sheet == Stylesheet(ServedNames(css, page))
    {
      var rules := "";
      var i := 0;
      while i < |css|
        invariant 0 <= i <= |css|
        invariant rules == Terminated(ServedNames(css[..i], page), ",\n")
      {
        assert css[..i + 1][..i] == css[..i] && css[..i + 1][i] == css[i];
        ghost var names := ServedNames(css[..i], page);
        if ServedOn(css[i].key, page) {
          assert ServedNames(css[..i + 1], page) == names + [css[i].key.name];
          assert (names + [css[i].key.name])[..|names|] == names;
          rules := rules + css[i].key.name + ",\n";
        } else {
          assert ServedNames(css[..i + 1], page) == names;
        }
        i := i + 1;
      }
      assert css[..i] == css;
      AccumulatedSheet(ServedNames(css, page));
      sheet := DropLastTwo(rules) + HideDeclaration;
    }

    /** `get_default_css_rules`: the rows with neither a whitelist nor a blacklist. */
    method GetDefaultCssRules() returns (sheet: string)
      ensures sheet == Stylesheet(ServedNames(css, None))
    {
      sheet := BuildStylesheet(None);
    }

    /** `get_css_rules`: nothing for a page that is not http(s), else the rows served on its host without `www.`. */
    method GetCssRules(uri: string) returns (sheet: string)
      ensures url.scheme(uri) != "http" && url.scheme(uri) != "https" ==> sheet == ""
      ensures url.scheme(uri) == "http" || url.scheme(uri) == "https" ==>
        sheet == Stylesheet(ServedNames(css, Some(url.removeWww(url.netloc(uri)))))
    {
      if url.scheme(uri) !in ["http", "https"] {
        return "";
      }
      var netloc := url.removeWww(url.netloc(uri));
      sheet := BuildStylesheet(Some(netloc));
    }
  }
}
