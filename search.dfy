/**
 * The tail of `DatabaseHistory.search`: the query is cut into words, every
 * fetched `(rowid, title, uri)` item gets a score from the words it
 * matches, and the scored items are kept in fetch order without repeating a
 * URI. Fetching the items (two SQL `LIKE` queries with their ordering and
 * limit) is not modelled: the items are an input.
 */
module Search {
  import opened Strings
  import opened Url

  /** A row the SQL queries fetched. */
  datatype Item = Item(id: int, title: string, uri: string)

  /** A row of the answer: the item and its score. */
  datatype ScoredItem = ScoredItem(id: int, title: string, uri: string, score: int)

  // ---------------------------------------------------------------------
  // Words
  // ---------------------------------------------------------------------

  /** Every piece stripped: `[value.strip() for value in words]`. */
  function StripAll(pieces: seq<string>): seq<string> {
    seq(|pieces|, i requires 0 <= i < |pieces| => Strip(pieces[i]))
  }

  /** The empty strings dropped: `filter(lambda x: x != '', words)`. */
  function NonEmpty(xs: seq<string>): (ys: seq<string>)
    ensures |ys| <= |xs|
    ensures forall j :: 0 <= j < |ys| ==> ys[j] != [] && ys[j] in xs
  {
    if xs == [] then []
    else (if xs[0] != [] then [xs[0]] else []) + NonEmpty(xs[1..])
  }

  /** One more string is kept at the end exactly when it is not empty. */
  lemma {:induction false} NonEmptySnoc(xs: seq<string>, x: string)
    ensures NonEmpty(xs + [x]) == NonEmpty(xs) + (if x != [] then [x] else [])
  {
    if xs != [] {
      assert (xs + [x])[0] == xs[0];
      assert (xs + [x])[1..] == xs[1..] + [x];
      NonEmptySnoc(xs[1..], x);
    }
  }

  /** Every non-empty string is kept. */
  lemma {:induction false} NonEmptyComplete(xs: seq<string>)
    ensures forall i :: 0 <= i < |xs| && xs[i] != [] ==> xs[i] in NonEmpty(xs)
  {
    if xs != [] {
      NonEmptyComplete(xs[1..]);
      assert forall i :: 1 <= i < |xs| ==> xs[i] == xs[1..][i - 1];
    }
  }

  /** The pieces stripped, the empty ones dropped. */
  function StrippedWords(pieces: seq<string>): (words: seq<string>)
    ensures forall j :: 0 <= j < |words| ==> words[j] != []
    ensures (forall i :: 0 <= i < |pieces| ==> ' ' !in pieces[i]) ==> forall j :: 0 <= j < |words| ==> ' ' !in words[j]
  {
    var words := NonEmpty(StripAll(pieces));
    assert forall j :: 0 <= j < |words| ==> exists i :: 0 <= i < |pieces| && words[j] == Strip(pieces[i]) by {
      forall j | 0 <= j < |words| ensures exists i :: 0 <= i < |pieces| && words[j] == Strip(pieces[i]) {
        var i :| 0 <= i < |StripAll(pieces)| && StripAll(pieces)[i] == words[j];
      }
    }
    words
  }

  /** One more piece adds its stripped form at the end. */
  lemma StripAllSnoc(pieces: seq<string>, piece: string)
    ensures StripAll(pieces + [piece]) == StripAll(pieces) + [Strip(piece)]
  {
    var longer := pieces + [piece];
    forall i | 0 <= i < |longer| ensures StripAll(longer)[i] == (StripAll(pieces) + [Strip(piece)])[i] {
      if i < |pieces| {
        assert longer[i] == pieces[i];
      }
    }
  }

  /** One more piece adds its stripped form at the end, unless that is empty. */
  lemma StrippedWordsSnoc(pieces: seq<string>, piece: string)
    ensures StrippedWords(pieces + [piece]) ==
      StrippedWords(pieces) + (if Strip(piece) != [] then [Strip(piece)] else [])
  {
    StripAllSnoc(pieces, piece);
    NonEmptySnoc(StripAll(pieces), Strip(piece));
  }

  /** Every non-empty stripped piece is a word. */
  lemma StrippedWordsComplete(pieces: seq<string>)
    ensures forall i :: 0 <= i < |pieces| && Strip(pieces[i]) != [] ==> Strip(pieces[i]) in StrippedWords(pieces)
  {
    var stripped := StripAll(pieces);
    NonEmptyComplete(stripped);
    assert forall i :: 0 <= i < |pieces| ==> stripped[i] == Strip(pieces[i]);
  }

  /** Every word is the stripped form of a piece. */
  lemma StrippedWordsSound(pieces: seq<string>)
    ensures forall j :: 0 <= j < |StrippedWords(pieces)| ==>
      exists i :: 0 <= i < |pieces| && StrippedWords(pieces)[j] == Strip(pieces[i])
  {
    var stripped := StripAll(pieces);
    var words := StrippedWords(pieces);
    forall j | 0 <= j < |words|
      ensures exists i :: 0 <= i < |pieces| && words[j] == Strip(pieces[i])
    {
      var i :| 0 <= i < |stripped| && stripped[i] == words[j];
    }
  }

  /** The words of a query: `search.split(" ")`, each stripped, the empty ones dropped. */
  function Words(query: string): seq<string> {
    StrippedWords(Split(query, " "))
  }

  /**
   * No word holds a space, every non-empty stripped piece of the query
   * between spaces is a word, and every word is such a piece.
   */
  lemma WordsOfQuery(query: string)
    ensures forall j :: 0 <= j < |Words(query)| ==> ' ' !in Words(query)[j]
    ensures forall i :: 0 <= i < |Split(query, " ")| && Strip(Split(query, " ")[i]) != [] ==>
      Strip(Split(query, " ")[i]) in Words(query)
    ensures forall j :: 0 <= j < |Words(query)| ==>
      exists i :: 0 <= i < |Split(query, " ")| && Words(query)[j] == Strip(Split(query, " ")[i])
  {
    StrippedWordsSound(Split(query, " "));
    var pieces := Split(query, " ");
    SplitFacts(query, " ");
    forall i | 0 <= i < |pieces| ensures ' ' !in pieces[i] {
      ContainsChar(pieces[i], ' ');
    }
    StrippedWordsComplete(pieces);
  }

  // ---------------------------------------------------------------------
  // Scores
  // ---------------------------------------------------------------------

  /**
   * The netloc bonus as the source writes it, `if netloc.find(word + ".")`:
   * `find` answers an index or -1, and every answer but 0 is true.
   */
  predicate NetlocBonusAsWritten(netloc: string, word: string) {
    Find(netloc, word + ".") != 0
  }

  /** The netloc bonus as intended: the netloc holds `word.`. */
  predicate NetlocBonus(netloc: string, word: string) {
    Contains(netloc, word + ".")
  }

  /** As written, the bonus goes to every netloc that does NOT begin with `word.`. */
  lemma NetlocBonusAsWrittenInverted(netloc: string, word: string)
    ensures NetlocBonusAsWritten(netloc, word) <==> !StartsWith(netloc, word + ".")
    ensures StartsWith(netloc, word + ".") ==> NetlocBonus(netloc, word) && !NetlocBonusAsWritten(netloc, word)
  {
    FindZeroIsPrefix(netloc, word + ".");
  }

  /** The searched site itself misses the bonus: "gnome" on gnome.org. */
  lemma NetlocBonusMissesOwnSite()
    ensures NetlocBonus("gnome.org", "gnome") && !NetlocBonusAsWritten("gnome.org", "gnome")
  {
    var netloc, prefix := "gnome.org", "gnome.";
    assert "gnome" + "." == prefix;
    assert netloc[..|prefix|] == prefix;
    NetlocBonusAsWrittenInverted(netloc, "gnome");
  }

  /** An unrelated site gets the bonus: "wiki" on gnome.org. */
  lemma NetlocBonusGoesElsewhere()
    ensures !NetlocBonus("gnome.org", "wiki") && NetlocBonusAsWritten("gnome.org", "wiki")
  {
    var netloc, pattern := "gnome.org", "wiki.";
    assert "wiki" + "." == pattern;
    assert pattern[0] !in netloc;
    AbsentHeadNotContained(netloc, pattern);
  }

  /**
   * The score one word gives an item: +1 if the lower-cased title holds it;
   * if the lower-cased URI holds it, +1, then +1 for the netloc bonus and +1
   * when the URI has no path.
   */
  function WordScore(urls: UrlHelpers, word: string, item: Item): (score: int)
    ensures 0 <= score <= 4
    ensures score == 0 <==> !Contains(Lower(item.title), Lower(word)) && !Contains(Lower(item.uri), Lower(word))
  {
    var lower := Lower(word);
    var uri := Lower(item.uri);
    (if Contains(Lower(item.title), lower) then 1 else 0) +
    (if Contains(uri, lower) then
       1 + (if NetlocBonus(urls.netloc(uri), lower) then 1 else 0) + (if urls.path(uri) == [] then 1 else 0)
     else 0)
  }

  /**
   * The score one word gives an item as the source computes it: the same
   * as `WordScore` but with the netloc bonus of `NetlocBonusAsWritten`.
   */
  function WordScoreAsWritten(urls: UrlHelpers, word: string, item: Item): (score: int)
    ensures 0 <= score <= 4
    ensures score == 0 <==> !Contains(Lower(item.title), Lower(word)) && !Contains(Lower(item.uri), Lower(word))
  {
    var lower := Lower(word);
    var uri := Lower(item.uri);
    (if Contains(Lower(item.title), lower) then 1 else 0) +
    (if Contains(uri, lower) then
       1 + (if NetlocBonusAsWritten(urls.netloc(uri), lower) then 1 else 0) + (if urls.path(uri) == [] then 1 else 0)
     else 0)
  }

  /**
   * The two scores differ only on a URI match, by the netloc bonus: as
   * written, a URI whose netloc begins with the word scores one less than
   * intended, and one whose netloc does not hold `word.` at all one more.
   */
  lemma WordScoreAsWrittenDiffers(urls: UrlHelpers, word: string, item: Item)
    ensures var uri := Lower(item.uri);
      var netloc := urls.netloc(uri);
      var lower := Lower(word);
      Contains(uri, lower) && StartsWith(netloc, lower + ".") ==>
        WordScoreAsWritten(urls, word, item) == WordScore(urls, word, item) - 1
    ensures var uri := Lower(item.uri);
      var netloc := urls.netloc(uri);
      var lower := Lower(word);
      Contains(uri, lower) && !NetlocBonus(netloc, lower) ==>
        WordScoreAsWritten(urls, word, item) == WordScore(urls, word, item) + 1
    ensures !Contains(Lower(item.uri), Lower(word)) ==> WordScoreAsWritten(urls, word, item) == WordScore(urls, word, item)
  {
    var uri := Lower(item.uri);
    var lower := Lower(word);
    NetlocBonusAsWrittenInverted(urls.netloc(uri), lower);
    if !NetlocBonus(urls.netloc(uri), lower) {
      FindZeroIsPrefix(urls.netloc(uri), lower + ".");
    }
  }

  /** The score of an item as `search` computes it: the sum of its words' scores. */
  function Score(urls: UrlHelpers, words: seq<string>, item: Item): int {
    if words == [] then 0
    else Score(urls, words[..|words| - 1], item) + WordScoreAsWritten(urls, words[|words| - 1], item)
  }

  /** The score of an item with the intended netloc bonus. */
  function ScoreIntended(urls: UrlHelpers, words: seq<string>, item: Item): int {
    if words == [] then 0
    else ScoreIntended(urls, words[..|words| - 1], item) + WordScore(urls, words[|words| - 1], item)
  }

  /** The words that occur in the item's URI while its netloc does not hold `word.`: each gets a bonus it should not. */
  function BonusGained(urls: UrlHelpers, words: seq<string>, item: Item): (n: nat)
    ensures n <= |words|
  {
    if words == [] then 0
    else
      var w := Lower(words[|words| - 1]);
      var uri := Lower(item.uri);
      BonusGained(urls, words[..|words| - 1], item) +
      (if Contains(uri, w) && !NetlocBonus(urls.netloc(uri), w) then 1 else 0)
  }

  /** The words that occur in the item's URI while its netloc starts with `word.`: each misses the bonus it should get. */
  function BonusLost(urls: UrlHelpers, words: seq<string>, item: Item): (n: nat)
    ensures n <= |words|
  {
    if words == [] then 0
    else
      var w := Lower(words[|words| - 1]);
      var uri := Lower(item.uri);
      BonusLost(urls, words[..|words| - 1], item) +
      (if Contains(uri, w) && StartsWith(urls.netloc(uri), w + ".") then 1 else 0)
  }

  /**
   * The score `search` gives differs from the intended one by exactly the
   * bonuses gained on foreign netlocs minus those lost on the searched site.
   */
  lemma {:induction false} ScoreAsWrittenDiffers(urls: UrlHelpers, words: seq<string>, item: Item)
    ensures Score(urls, words, item) == ScoreIntended(urls, words, item) + BonusGained(urls, words, item) - BonusLost(urls, words, item)
  {
    if words != [] {
      var w := words[|words| - 1];
      var lower := Lower(w);
      var uri := Lower(item.uri);
      ScoreAsWrittenDiffers(urls, words[..|words| - 1], item);
      WordScoreAsWrittenDiffers(urls, w, item);
      NetlocBonusAsWrittenInverted(urls.netloc(uri), lower);
    }
  }

  /** Where no word occurs in the item's URI, `search` scores as intended. */
  lemma {:induction false} ScoreAsIntendedWithoutUriMatch(urls: UrlHelpers, words: seq<string>, item: Item)
    requires forall i :: 0 <= i < |words| ==> !Contains(Lower(item.uri), Lower(words[i]))
    ensures Score(urls, words, item) == ScoreIntended(urls, words, item)
  {
    if words != [] {
      var init := words[..|words| - 1];
      assert forall i :: 0 <= i < |init| ==> init[i] == words[i];
      ScoreAsIntendedWithoutUriMatch(urls, init, item);
      WordScoreAsWrittenDiffers(urls, words[|words| - 1], item);
    }
  }

  /** Each word adds between 0 and 4. */
  lemma {:induction false} ScoreBounds(urls: UrlHelpers, words: seq<string>, item: Item)
    ensures 0 <= Score(urls, words, item) <= 4 * |words|
  {
    if words != [] {
      ScoreBounds(urls, words[..|words| - 1], item);
    }
  }

  /** An item scores nothing exactly when no word occurs in its title or its URI. */
  lemma {:induction false} ScoreZero(urls: UrlHelpers, words: seq<string>, item: Item)
    ensures Score(urls, words, item) == 0 <==>
      forall i :: 0 <= i < |words| ==>
        !Contains(Lower(item.title), Lower(words[i])) && !Contains(Lower(item.uri), Lower(words[i]))
  {
    if words != [] {
      var init := words[..|words| - 1];
      ScoreZero(urls, init, item);
      ScoreBounds(urls, init, item);
      assert forall i :: 0 <= i < |init| ==> init[i] == words[i];
    }
  }

  /** Every item of `items`, scored. */
  function ScoreAll(urls: UrlHelpers, words: seq<string>, items: seq<Item>): (scored: seq<ScoredItem>)
    ensures |scored| == |items|
  {
    if items == [] then []
    else
      var last := items[|items| - 1];
      ScoreAll(urls, words, items[..|items| - 1]) + [ScoredItem(last.id, last.title, last.uri, Score(urls, words, last))]
  }

  lemma ScoredAt(urls: UrlHelpers, words: seq<string>, items: seq<Item>, i: int)
    requires 0 <= i < |items|
    ensures ScoreAll(urls, words, items)[i] ==
      ScoredItem(items[i].id, items[i].title, items[i].uri, Score(urls, words, items[i]))
  {
    if i < |items| - 1 {
      ScoredAt(urls, words, items[..|items| - 1], i);
    }
  }

  // ---------------------------------------------------------------------
  // Duplicate removal
  // ---------------------------------------------------------------------

  /** The URIs of `items`, in order. */
  function UrisOf(items: seq<ScoredItem>): seq<string> {
    seq(|items|, i requires 0 <= i < |items| => items[i].uri)
  }

  /** The items in order, each dropped when an earlier kept item has its URI. */
  function Dedup(items: seq<ScoredItem>): seq<ScoredItem> {
    if items == [] then []
    else
      var kept := Dedup(items[..|items| - 1]);
      var last := items[|items| - 1];
      if last.uri in UrisOf(kept) then kept else kept + [last]
  }

  /** An item is the first of `items` with its URI. */
  ghost predicate FirstWithUri(items: seq<ScoredItem>, i: int)
    requires 0 <= i < |items|
  {
    forall k :: 0 <= k < i ==> items[k].uri != items[i].uri
  }

  lemma DedupSnoc(items: seq<ScoredItem>, x: ScoredItem)
    ensures Dedup(items + [x]) == if x.uri in UrisOf(Dedup(items)) then Dedup(items) else Dedup(items) + [x]
  {
    assert (items + [x])[..|items|] == items;
  }

  /** Duplicate removal keeps only items of the input, and no URI twice. */
  lemma {:induction false} DedupDistinct(items: seq<ScoredItem>)
    ensures forall x :: x in Dedup(items) ==> x in items
    ensures forall i, j :: 0 <= i < j < |Dedup(items)| ==> Dedup(items)[i].uri != Dedup(items)[j].uri
  {
    if items != [] {
      var init := items[..|items| - 1];
      var last := items[|items| - 1];
      DedupDistinct(init);
      DedupSnoc(init, last);
      assert items == init + [last];
      var prev := Dedup(init);
      if last.uri !in UrisOf(prev) {
        forall j | 0 <= j < |prev| ensures prev[j].uri != last.uri {
          assert UrisOf(prev)[j] == prev[j].uri;
        }
      }
    }
  }

  /** Every URI of the input survives duplicate removal. */
  lemma {:induction false} DedupKeepsUris(items: seq<ScoredItem>)
    ensures forall i :: 0 <= i < |items| ==> items[i].uri in UrisOf(Dedup(items))
  {
    if items != [] {
      var init := items[..|items| - 1];
      var last := items[|items| - 1];
      DedupKeepsUris(init);
      DedupSnoc(init, last);
      assert items == init + [last];
      var prev := Dedup(init);
      if last.uri !in UrisOf(prev) {
        assert UrisOf(prev + [last]) == UrisOf(prev) + [last.uri];
      }
    }
  }

  /** Each item kept is the first input item with its URI. */
  lemma {:induction false} DedupFirstWins(items: seq<ScoredItem>)
    ensures forall j :: 0 <= j < |Dedup(items)| ==>
      exists i :: 0 <= i < |items| && Dedup(items)[j] == items[i] && FirstWithUri(items, i)
  {
    if items != [] {
      var init := items[..|items| - 1];
      var last := items[|items| - 1];
      var prev := Dedup(init);
      var kept := Dedup(items);
      DedupFirstWins(init);
      DedupSnoc(init, last);
      assert items == init + [last];
      assert forall k :: 0 <= k < |init| ==> items[k] == init[k];
      forall j | 0 <= j < |kept|
        ensures exists i :: 0 <= i < |items| && kept[j] == items[i] && FirstWithUri(items, i)
      {
        if j < |prev| {
          assert kept[j] == prev[j];
          var i :| 0 <= i < |init| && prev[j] == init[i] && FirstWithUri(init, i);
          assert FirstWithUri(items, i);
          assert kept[j] == items[i];
        } else {
          assert kept[j] == last;
          DedupKeepsUris(init);
          forall k | 0 <= k < |items| - 1 ensures items[k].uri != last.uri {
            assert items[k] == init[k];
            assert init[k].uri in UrisOf(prev);
          }
          assert FirstWithUri(items, |items| - 1);
          assert 0 <= |items| - 1 < |items| && kept[j] == items[|items| - 1];
        }
      }
    } else {
      assert Dedup(items) == [];
    }
  }

  // ---------------------------------------------------------------------
  // The search tail
  // ---------------------------------------------------------------------

  /** The per-word loop of `search` for one item. */
  method ScoreItem(urls: UrlHelpers, words: seq<string>, item: Item) returns (score: int)
    ensures score == Score(urls, words, item)
  {
    score := 0;
    var i := 0;
    while i < |words|
      invariant 0 <= i <= |words|
      invariant score == Score(urls, words[..i], item)
    {
      assert words[..i + 1][..i] == words[..i];
      var lower := Lower(words[i]);
      var title := Lower(item.title);
      var uri := Lower(item.uri);
      if Contains(title, lower) {
        score := score + 1;
      }
      if Contains(uri, lower) {
        score := score + 1;
        if Find(urls.netloc(uri), lower + ".") != 0 {
          score := score + 1;
        }
        if urls.path(uri) == [] {
          score := score + 1;
        }
      }
      i := i + 1;
    }
    assert words[..|words|] == words;
  }

  /**
   * The tail of `search(query)` over the fetched `items`: score each item
   * and keep it unless an item with the same URI was kept before.
   */
  method SearchItems(urls: UrlHelpers, query: string, items: seq<Item>) returns (scored: seq<ScoredItem>)
    ensures scored == Dedup(ScoreAll(urls, Words(query), items))
  {
    var words := Words(query);
    scored := ScoreAndDedup(urls, words, items);
  }

  /** The item loop of `search` for the given query words. */
  method ScoreAndDedup(urls: UrlHelpers, words: seq<string>, items: seq<Item>) returns (scored: seq<ScoredItem>)
    ensures scored == Dedup(ScoreAll(urls, words, items))
  {
    scored := [];
    var uris: seq<string> := [];
    var i := 0;
    while i < |items|
      invariant 0 <= i <= |items|
      invariant scored == Dedup(ScoreAll(urls, words, items[..i]))
      invariant uris == UrisOf(scored)
    {
      var item := items[i];
      var score := ScoreItem(urls, words, item);
      SearchStep(urls, words, items, i);
      if item.uri !in uris {
        scored := scored + [ScoredItem(item.id, item.title, item.uri, score)];
        uris := uris + [item.uri];
      }
      i := i + 1;
    }
    assert items[..|items|] == items;
  }

  /** One turn of the item loop of `search`. */
  lemma SearchStep(urls: UrlHelpers, words: seq<string>, items: seq<Item>, i: int)
    requires 0 <= i < |items|
    ensures var x := ScoredItem(items[i].id, items[i].title, items[i].uri, Score(urls, words, items[i]));
      var prev := Dedup(ScoreAll(urls, words, items[..i]));
      Dedup(ScoreAll(urls, words, items[..i + 1])) == (if items[i].uri in UrisOf(prev) then prev else prev + [x]) &&
      UrisOf(prev + [x]) == UrisOf(prev) + [items[i].uri]
  {
    assert items[..i + 1][..i] == items[..i];
    DedupSnoc(ScoreAll(urls, words, items[..i]),
      ScoredItem(items[i].id, items[i].title, items[i].uri, Score(urls, words, items[i])));
  }
}
