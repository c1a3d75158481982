/**
 * The pure half of the ad-block engine: turning one filter line (a hosts
 * file line or an Adblock Plus line) into the rule it stores.
 */
module RuleCompiler {
  import opened Wrappers
  import opened Strings

  /** The characters `__rule_to_regex` escapes with a backslash. */
  const Special: set<char> := {'.', '$', '+', '?', '{', '}', '(', ')', '[', ']', '\\'}

  /** What `^` becomes: one separator character, or the end of the address. */
  const SeparatorClass: string := "(?:[^\\w\\d_\\-.%]|$)"

  function EscapeChar(c: char): string {
    if c in Special then ['\\', c] else [c]
  }

  /** `re.sub(__SPECIAL_CHARS, r"\\\1", rule)`. */
  function Escape(s: string): (r: string)
    ensures |r| >= |s|
  {
    if s == [] then [] else EscapeChar(s[0]) + Escape(s[1..])
  }

  /** Drops the backslash in front of every escaped special character. */
  function Unescape(s: string): string {
    if s == [] then []
    else if |s| >= 2 && s[0] == '\\' && s[1] in Special then [s[1]] + Unescape(s[2..])
    else [s[0]] + Unescape(s[1..])
  }

  /** Escaping loses nothing: the rule is recovered from its escaped form. */
  lemma {:induction false} UnescapeEscape(s: string)
    ensures Unescape(Escape(s)) == s
  {
    if s != [] {
      UnescapeEscape(s[1..]);
      var e := Escape(s);
      assert e == EscapeChar(s[0]) + Escape(s[1..]);
      if s[0] in Special {
        assert e[2..] == Escape(s[1..]);
      } else {
        assert e[1..] == Escape(s[1..]);
      }
    }
  }

  /** `s.replace(c, rep)` for one character. */
  function ReplaceChar(s: string, c: char, rep: string): (r: string)
    ensures c !in s ==> r == s
  {
    if s == [] then [] else (if s[0] == c then rep else [s[0]]) + ReplaceChar(s[1..], c, rep)
  }

  lemma {:induction false} ReplaceCharConcat(a: string, b: string, c: char, rep: string)
    ensures ReplaceChar(a + b, c, rep) == ReplaceChar(a, c, rep) + ReplaceChar(b, c, rep)
  {
    if a != [] {
      assert (a + b)[0] == a[0];
      assert (a + b)[1..] == a[1..] + b;
      ReplaceCharConcat(a[1..], b, c, rep);
      var head := if a[0] == c then rep else [a[0]];
      assert ReplaceChar(a + b, c, rep) == head + ReplaceChar(a[1..] + b, c, rep);
      assert ReplaceChar(a, c, rep) == head + ReplaceChar(a[1..], c, rep);
    } else {
      assert a + b == b;
    }
  }

  /** The loop over `__REPLACE_CHARS`: `^` first, then `*`. */
  function ReplaceWildcards(s: string): string {
    ReplaceChar(ReplaceChar(s, '^', SeparatorClass), '*', ".*")
  }

  /** The regex text one rule character stands for. */
  function Translate(c: char): (r: string)
    ensures |r| >= 1
  {
    if c in Special then ['\\', c]
    else if c == '^' then SeparatorClass
    else if c == '*' then ".*"
    else [c]
  }

  function TranslateAll(s: string): (r: string)
    ensures |r| >= |s|
  {
    if s == [] then [] else Translate(s[0]) + TranslateAll(s[1..])
  }

  lemma ReplaceWildcardsConcat(a: string, b: string)
    ensures ReplaceWildcards(a + b) == ReplaceWildcards(a) + ReplaceWildcards(b)
  {
    ReplaceCharConcat(a, b, '^', SeparatorClass);
    ReplaceCharConcat(ReplaceChar(a, '^', SeparatorClass), ReplaceChar(b, '^', SeparatorClass), '*', ".*");
  }

  /** The two replacements on one escaped character give its translation. */
  lemma ReplaceWildcardsChar(c: char)
    ensures ReplaceWildcards(EscapeChar(c)) == Translate(c)
  {
    assert '*' !in SeparatorClass;
    if c in Special {
      assert '^' !in EscapeChar(c) && '*' !in EscapeChar(c);
    } else if c == '^' {
      assert ReplaceChar(EscapeChar(c), '^', SeparatorClass) == SeparatorClass;
    } else if c == '*' {
      assert ReplaceChar(EscapeChar(c), '*', ".*") == ".*";
    } else {
      assert ReplaceChar([c], '^', SeparatorClass) == [c];
    }
  }

  /**
   * Escaping followed by the two replacements is a character-by-character
   * translation: no stage rewrites what an earlier stage produced.
   */
  lemma {:induction false} StagesArePerCharacter(s: string)
    ensures ReplaceWildcards(Escape(s)) == TranslateAll(s)
  {
    if s != [] {
      assert Escape(s) == EscapeChar(s[0]) + Escape(s[1..]);
      ReplaceWildcardsConcat(EscapeChar(s[0]), Escape(s[1..]));
      ReplaceWildcardsChar(s[0]);
      StagesArePerCharacter(s[1..]);
    }
  }

  /** Every `|` that is not the last character is escaped or followed by `$`. */
  ghost predicate NoStrayPipe(r: string) {
    forall i :: 0 <= i < |r| - 1 && r[i] == '|' ==> r[i + 1] == '$' || (i > 0 && r[i - 1] == '\\')
  }

  /** Prepending a character keeps `NoStrayPipe` unless it is a `|` before a non-`$`. */
  lemma PrependKeepsNoStrayPipe(c: char, rest: string)
    requires NoStrayPipe(rest)
    requires c == '|' && |rest| > 0 ==> rest[0] == '$'
    ensures NoStrayPipe([c] + rest)
  {
    var r := [c] + rest;
    forall i | 0 <= i < |r| - 1 && r[i] == '|'
      ensures r[i + 1] == '$' || (i > 0 && r[i - 1] == '\\')
    {
      if i > 0 {
        assert r[i] == rest[i - 1] && r[i + 1] == rest[i];
        assert 0 <= i - 1 < |rest| - 1 && rest[i - 1] == '|';
        assert rest[i] == '$' || (i - 1 > 0 && rest[i - 2] == '\\');
        if i > 1 {
          assert r[i - 1] == rest[i - 2];
        }
      } else {
        assert r[1] == rest[0];
      }
    }
  }

  /** An escaped pipe in front keeps `NoStrayPipe`. */
  lemma EscapedPipeKeepsNoStrayPipe(rest: string)
    requires NoStrayPipe(rest)
    ensures NoStrayPipe("\\|" + rest)
  {
    var r := "\\|" + rest;
    forall i | 0 <= i < |r| - 1 && r[i] == '|'
      ensures r[i + 1] == '$' || (i > 0 && r[i - 1] == '\\')
    {
      if i > 1 {
        assert r[i] == rest[i - 2] && r[i + 1] == rest[i - 1];
        assert 0 <= i - 2 < |rest| - 1 && rest[i - 2] == '|';
        assert rest[i - 1] == '$' || (i - 2 > 0 && rest[i - 3] == '\\');
        if i > 2 {
          assert r[i - 1] == rest[i - 3];
        }
      } else {
        assert r[0] == '\\' && r[1] == '|';
      }
    }
  }

  /**
   * `re.sub("(\|)[^$]", r"\|", rule)`: a `|` followed by a character other
   * than `$` is replaced, together with that character, by `\|`.
   */
  function RewriteStrayPipes(s: string): (r: string)
    ensures NoStrayPipe(r)
    ensures |s| > 0 && s[0] != '|' ==> |r| > 0 && r[0] == s[0]
    ensures |s| > 0 && s[|s| - 1] == '$' ==> |r| > 0 && r[|r| - 1] == '$'
  {
    if s == [] then []
    else if s[0] == '|' && |s| >= 2 && s[1] != '$' then
      var rest := RewriteStrayPipes(s[2..]);
      EscapedPipeKeepsNoStrayPipe(rest);
      "\\|" + rest
    else
      var rest := RewriteStrayPipes(s[1..]);
      PrependKeepsNoStrayPipe(s[0], rest);
      [s[0]] + rest
  }

  /** The stray-pipe rewrite drops the character after the pipe: `a|b` becomes `a\|`. */
  lemma StrayPipeDropsNextCharacter()
    ensures RewriteStrayPipes("a|b") == "a\\|"
  {
    assert "a|b"[1..] == "|b";
    assert "|b"[2..] == "";
  }

  /** A prefix whose every `|` is followed by `$` passes the rewrite unchanged. */
  lemma {:induction false} PipeFreePrefixUnchanged(p: string, t: string)
    requires forall i :: 0 <= i < |p| && p[i] == '|' ==> i + 1 < |p| && p[i + 1] == '$'
    ensures RewriteStrayPipes(p + t) == p + RewriteStrayPipes(t)
  {
    if p != [] {
      assert (p + t)[1..] == p[1..] + t;
      PipeFreePrefixUnchanged(p[1..], t);
    } else {
      assert p + t == t;
    }
  }

  /** The `|$` inside the `^` replacement is kept. */
  lemma SeparatorClassSurvives(t: string)
    ensures RewriteStrayPipes(SeparatorClass + t) == SeparatorClass + RewriteStrayPipes(t)
  {
    PipeFreePrefixUnchanged(SeparatorClass, t);
  }

  /** A trailing `|` becomes `$`, then a leading `|` becomes `^`. */
  function AnchorPipes(s: string): (r: string)
    requires s != []
    ensures r != []
  {
    var s2 := if s[|s| - 1] == '|' then s[..|s| - 1] + "$" else s;
    if s2[0] == '|' then "^" + s2[1..] else s2
  }

  /** The rule is already a regex between slashes. */
  predicate IsRegexLiteral(rule: string) {
    |rule| > 0 && rule[0] == '/' && rule[|rule| - 1] == '/'
  }

  /**
   * `__rule_to_regex`: a regex literal loses its slashes, any other rule is
   * escaped, its wildcards replaced, its end pipes turned into anchors and
   * its stray pipes rewritten. The empty rule raises at `rule[0]`, which
   * the function turns into `None`.
   */
  function RuleToRegex(rule: string): (r: Option<string>)
    ensures r.None? <==> rule == ""
    ensures IsRegexLiteral(rule) ==> r.Some? && |r.value| == |rule| - (if |rule| == 1 then 1 else 2)
    ensures IsRegexLiteral(rule) && |rule| >= 2 ==> r.value == rule[1..|rule| - 1]
    ensures r.Some? && !IsRegexLiteral(rule) ==> NoStrayPipe(r.value)
  {
    if rule == [] then None
    else if IsRegexLiteral(rule) then Some(if |rule| == 1 then "" else rule[1..|rule| - 1])
    else
      var translated := ReplaceWildcards(Escape(rule));
      StagesArePerCharacter(rule);
      Some(RewriteStrayPipes(AnchorPipes(translated)))
  }

  /** Only `|` translates to text that starts or ends with `|`, and nothing translates to text starting with `^`. */
  lemma TranslateEnds(c: char)
    ensures var r := Translate(c);
      && r[0] != '^' && (r[0] == '|' <==> c == '|') && (r[|r| - 1] == '|' <==> c == '|')
  {
    assert SeparatorClass[0] == '(' && SeparatorClass[|SeparatorClass| - 1] == ')';
  }

  lemma {:induction false} TranslateAllEnds(s: string)
    requires s != []
    ensures TranslateAll(s)[0] != '^'
    ensures TranslateAll(s)[0] == '|' <==> s[0] == '|'
    ensures var t := TranslateAll(s); t[|t| - 1] == '|' <==> s[|s| - 1] == '|'
  {
    var t := TranslateAll(s);
    var head := Translate(s[0]);
    TranslateEnds(s[0]);
    assert t == head + TranslateAll(s[1..]);
    assert t[0] == head[0];
    if |s| == 1 {
      assert t == head;
    } else {
      TranslateAllEnds(s[1..]);
      var u := TranslateAll(s[1..]);
      assert t[|t| - 1] == u[|u| - 1];
    }
  }

  /** The anchors of a translated rule: `^` exactly for a leading `|`, `$` for a trailing one. */
  lemma AnchorPipesEnds(t: string)
    requires |t| >= 2 && t[0] != '^'
    ensures var a := AnchorPipes(t);
      && (a[0] == '^' <==> t[0] == '|')
      && a[0] != '|'
      && (t[|t| - 1] == '|' ==> a[|a| - 1] == '$')
  {
    var s2 := if t[|t| - 1] == '|' then t[..|t| - 1] + "$" else t;
    assert s2[0] == t[0] && s2[|s2| - 1] == (if t[|t| - 1] == '|' then '$' else t[|t| - 1]);
  }

  /**
   * For a rule of two or more characters that is not a regex literal, the
   * regex starts with the `^` anchor exactly when the rule starts with `|`,
   * and it ends with the `$` anchor when the rule ends with `|`.
   */
  lemma PipeAnchors(rule: string)
    requires |rule| >= 2 && !IsRegexLiteral(rule)
    ensures RuleToRegex(rule).Some?
    ensures RuleToRegex(rule).value[0] == '^' <==> rule[0] == '|'
    ensures rule[|rule| - 1] == '|' ==> var r := RuleToRegex(rule).value; r[|r| - 1] == '$'
  {
    StagesArePerCharacter(rule);
    TranslateAllEnds(rule);
    var t := TranslateAll(rule);
    AnchorPipesEnds(t);
    assert RuleToRegex(rule) == Some(RewriteStrayPipes(AnchorPipes(t)));
  }

  /** `__save_rules` on one hosts-file line: the netloc it upserts, or `None` when it skips the line. */
  function HostsLineNetloc(line: string): Option<string> {
    if StartsWith(line, "#") then None
    else
      var fields := Split(ReplaceFirst(ReplaceFirst(line, ' ', '\t'), '\t', '@'), "@");
      if |fields| <= 1 then None
      else Some(Split(RemoveChar(RemoveChar(fields[1], ' '), '\r'), "#")[0])
  }

  /**
   * A line is stored exactly when it is not a comment and has a field
   * separator, and the stored netloc holds no space, carriage return or
   * comment.
   */
  lemma HostsLineNetlocFacts(line: string)
    ensures var r := HostsLineNetloc(line);
      && (r.Some? <==> !StartsWith(line, "#") && (' ' in line || '\t' in line || '@' in line))
      && (r.Some? ==> ' ' !in r.value && '\r' !in r.value && '#' !in r.value)
  {
    if !StartsWith(line, "#") {
      var tabbed := ReplaceFirst(ReplaceFirst(line, ' ', '\t'), '\t', '@');
      var fields := Split(tabbed, "@");
      SplitFacts(tabbed, "@");
      ContainsChar(tabbed, '@');
      if |fields| > 1 {
        var cleaned := RemoveChar(RemoveChar(fields[1], ' '), '\r');
        var netloc := Split(cleaned, "#")[0];
        SplitFacts(cleaned, "#");
        JoinStartsWithHead(Split(cleaned, "#"), "#");
        ContainsChar(netloc, '#');
      }
    }
  }

  lemma JoinStartsWithHead(parts: seq<string>, sep: string)
    requires |parts| >= 1
    ensures forall c :: c in parts[0] ==> c in Join(parts, sep)
  {
    if |parts| > 1 {
      assert Join(parts, sep) == parts[0] + (sep + Join(parts[1..], sep));
    }
  }

  /**
   * A hosts entry `<address> <host>` yields the host, whatever the address,
   * as long as neither field holds a separator or a comment.
   */
  lemma HostsEntry(address: string, host: string)
    requires address != [] && address[0] != '#'
    requires ' ' !in address && '\t' !in address && '@' !in address
    requires ' ' !in host && '\t' !in host && '@' !in host && '\r' !in host && '#' !in host
    ensures HostsLineNetloc(address + " " + host) == Some(host)
  {
    var line := address + " " + host;
    assert !StartsWith(line, "#") by { assert line[0] == address[0]; }
    ReplaceFirstAt(address, host, ' ', '\t');
    ReplaceFirstAt(address, host, '\t', '@');
    var tabbed := address + "@" + host;
    assert tabbed[..|address|] == address && tabbed[|address| + 1..] == host;
    SplitAtOnlyOccurrence(tabbed, '@', |address|);
    RemoveAbsentChar(host, ' ');
    RemoveAbsentChar(host, '\r');
    ContainsChar(host, '#');
  }

  /**
   * What one Adblock Plus line does to the store. `Raises` outcomes end the
   * save with an exception; the others are counted towards the commit
   * batch unless the line is `Skipped`.
   */
  datatype AbpRule =
    | Skipped                                                  // filter options, comments, element-hiding extensions
    | CssDefault(name: string)                                 // `##selector`
    | CssDomain(name: string, whitelist: string, blacklist: string)
    | MalformedCss                                             // `line.split("##")` has more than two parts: ValueError
    | Ignored                                                  // exception rules `@@` and `#@#`
    | Host(netloc: string)                                     // `||host^`
    | DomainRegex(regex: string, domain: string)
    | GlobalRegex(regex: string)
    | NullRegex                                                // `||`: a NULL regex hits a NOT NULL column
    | NoRule                                                   // the empty line: no regex, nothing stored
  {
    predicate Raises() { MalformedCss? || NullRegex? }
    predicate Counted() { !Skipped? && !Raises() }
  }

  /** The domains of a CSS rule that are not negated, concatenated without a separator. */
  function Whitelist(domains: seq<string>): (w: string)
    ensures forall d :: d in domains && !StartsWith(d, "~") ==> forall c :: c in d ==> c in w
  {
    if domains == [] then ""
    else
      var d := domains[|domains| - 1];
      var w := Whitelist(domains[..|domains| - 1]) + (if StartsWith(d, "~") then "" else d);
      assert forall x :: x in domains ==> x in domains[..|domains| - 1] || x == d;
      w
  }

  /** The whitelist is built left to right: each domain not negated is appended as it is, with no separator. */
  lemma WhitelistSnoc(domains: seq<string>, d: string)
    ensures Whitelist(domains + [d]) == Whitelist(domains) + (if StartsWith(d, "~") then "" else d)
  {
    assert (domains + [d])[..|domains|] == domains;
  }

  /** The blacklist is built left to right: each negated domain `~x` is appended as `@x@`. */
  lemma BlacklistSnoc(domains: seq<string>, d: string)
    ensures Blacklist(domains + [d]) == Blacklist(domains) + (if StartsWith(d, "~") then "@" + d[1..] + "@" else "")
  {
    assert (domains + [d])[..|domains|] == domains;
  }

  /** The negated domains `~d` of a CSS rule, each stored as `@d@`. */
  function Blacklist(domains: seq<string>): (b: string)
    ensures b == "" <==> forall d :: d in domains ==> !StartsWith(d, "~")
    ensures b != "" ==> b[0] == '@' && b[|b| - 1] == '@'
  {
    if domains == [] then ""
    else
      var d := domains[|domains| - 1];
      var b0 := Blacklist(domains[..|domains| - 1]);
      assert forall x :: x in domains ==> x in domains[..|domains| - 1] || x == d;
      assert domains == domains[..|domains| - 1] + [d];
      b0 + (if StartsWith(d, "~") then "@" + d[1..] + "@" else "")
  }

  /** `__save_css_domain_rule`: the rule a `domains##selector` line inserts. */
  function CssDomainRule(line: string): AbpRule {
    var parts := Split(line, "##");
    if |parts| != 2 then MalformedCss
    else
      var domains := Split(parts[0], ",");
      CssDomain(parts[1], Whitelist(domains), Blacklist(domains))
  }

  /**
   * The line raises exactly when it has more than one `##`; otherwise the
   * selector is what follows the only `##`.
   */
  lemma CssDomainRuleFacts(line: string)
    ensures var r := CssDomainRule(line);
      && (r.MalformedCss? <==> |Split(line, "##")| != 2)
      && (r.CssDomain? || r.MalformedCss?)
      && (r.CssDomain? ==> Split(line, "##")[0] + "##" + r.name == line && !Contains(r.name, "##"))
  {
    SplitFacts(line, "##");
  }

  /** The address `__save_abp_rule` parses for a `||` rule: the rule up to its first `/` or `^`, after `http://`. */
  function AnchoredUri(rule: string): (uri: string)
    requires |rule| >= 2
    ensures StartsWith(uri, "http://")
  {
    "http://" + PrefixBefore(rule[2..], {'/', '^'})
  }

  /** `__save_abp_rule`: a rule that is neither CSS nor an exception. */
  function AbpRuleOf(rule: string, netlocOf: string -> string): (r: AbpRule)
    ensures r.Host? <==> StartsWith(rule, "||") && |rule| > 2 && rule[|rule| - 1] == '^'
    ensures r.Host? ==> r.netloc == rule[2..|rule| - 1]
    ensures r.NullRegex? <==> rule == "||"
    ensures r.NoRule? <==> rule == ""
    ensures r.DomainRegex? ==> r.domain != "" && StartsWith(rule, "||")
    ensures r.DomainRegex? || r.GlobalRegex? || r.Host? || r.NullRegex? || r.NoRule?
  {
    if |rule| >= 2 && rule[..2] == "||" then
      if rule[|rule| - 1] == '^' then Host(rule[2..|rule| - 1])
      else
        match RuleToRegex(rule[2..])
        case None => NullRegex
        case Some(regex) =>
          var domain := netlocOf(AnchoredUri(rule));
          if domain != "" then DomainRegex(regex, domain) else GlobalRegex(regex)
    else
      match RuleToRegex(rule)
      case None => NoRule
      case Some(regex) => GlobalRegex(regex)
  }

  /** The rule a `||` line not ending in `^` compiles to, case by case. */
  lemma AnchoredRegexRule(rule: string, netlocOf: string -> string)
    requires |rule| >= 2 && rule[..2] == "||" && rule[|rule| - 1] != '^'
    ensures var regex := RuleToRegex(rule[2..]);
      && (regex.None? ==> AbpRuleOf(rule, netlocOf) == NullRegex)
      && (regex.Some? && netlocOf(AnchoredUri(rule)) != "" ==>
            AbpRuleOf(rule, netlocOf) == DomainRegex(regex.value, netlocOf(AnchoredUri(rule))))
      && (regex.Some? && netlocOf(AnchoredUri(rule)) == "" ==> AbpRuleOf(rule, netlocOf) == GlobalRegex(regex.value))
  {
  }

  /** The tests `__save_abp_rules` makes before a line is saved. */
  predicate SkippedLine(line: string) {
    Contains(line, "-abp-") || '$' in line || '!' in line || '[' in line
  }

  /** `__save_abp_rules` on one line: the tests in their priority order. */
  function ClassifyAbp(line: string, netlocOf: string -> string): (r: AbpRule)
    ensures r.Skipped? <==> SkippedLine(line)
    ensures r.CssDefault? <==> !SkippedLine(line) && StartsWith(line, "##")
    ensures r.CssDefault? ==> r.name == line[2..]
    ensures r.CssDomain? || r.MalformedCss? ==> !SkippedLine(line) && !StartsWith(line, "##") && Contains(line, "##")
    ensures r.Ignored? <==> !SkippedLine(line) && !Contains(line, "##") && (Contains(line, "@@") || Contains(line, "#@#"))
  {
    if SkippedLine(line) then Skipped
    else if StartsWith(line, "##") then CssDefault(line[2..])
    else if Contains(line, "##") then CssDomainRule(line)
    else if Contains(line, "@@") || Contains(line, "#@#") then Ignored
    else AbpRuleOf(line, netlocOf)
  }

  /**
   * The blacklist is stored as `@d@`, so a page whose host carries no `@`
   * never equals it: a CSS rule with a negated domain is served on every
   * page, the negated one included.
   */
  lemma BlacklistNeverMatchesHost(domains: seq<string>, netloc: string)
    requires '@' !in netloc
    requires exists d :: d in domains && StartsWith(d, "~")
    ensures Blacklist(domains) != "" && Blacklist(domains) != netloc
  {
    var b := Blacklist(domains);
    assert b[0] == '@';
  }
}
