/**
 * The category page (src/pages/CategoryPage.jsx): the words of one category,
 * their part-of-speech facet options, the reset of a stale facet, the facet
 * filter, the free-text search, the per-category persisted state and the
 * empty-state choice. React's `useMemo` derivations are plain functions here;
 * the two state variables `searchQuery` and `activeFilter` live in the class
 * `FilterState`.
 */
module CategoryPage {
  import opened Wrappers
  import opened JsString
  import opened Seqs
  import opened DataLoader

  /** `slug || 'unknown'`: the route parameter, or `unknown` when it is missing or empty. */
  function ResolveSlug(slug: Option<string>): (r: string)
    ensures r != ""
    ensures slug.Some? && slug.value != "" ==> r == slug.value
    ensures slug.None? || slug.value == "" ==> r == "unknown"
  {
    match slug
    case Some(s) => if s != "" then s else "unknown"
    case None => "unknown"
  }

  // ------------------------------------------------------------ persistence

  const SearchPrefix: string := "ilx:search:"
  const FilterPrefix: string := "ilx:filters:"

  /** `ilx:search:${resolvedSlug}`. */
  function SearchKey(slug: string): string {
    SearchPrefix + slug
  }

  /** `ilx:filters:${resolvedSlug}`. */
  function FilterKey(slug: string): string {
    FilterPrefix + slug
  }

  /** The two keys never collide, and each category has keys of its own. */
  lemma StorageKeysDistinct(a: string, b: string)
    ensures SearchKey(a) != FilterKey(b)
    ensures SearchKey(a) == SearchKey(b) <==> a == b
    ensures FilterKey(a) == FilterKey(b) <==> a == b
  {
    assert SearchKey(a)[4] == 's' && FilterKey(b)[4] == 'f';
    if SearchKey(a) == SearchKey(b) {
      assert a == SearchKey(a)[|SearchPrefix|..] == SearchKey(b)[|SearchPrefix|..] == b;
    }
    if FilterKey(a) == FilterKey(b) {
      assert a == FilterKey(a)[|FilterPrefix|..] == FilterKey(b)[|FilterPrefix|..] == b;
    }
  }

  /** `window.localStorage.getItem(key) || ''`: a missing value reads as the empty string. */
  function StoredOr(storage: map<string, string>, key: string): (r: string)
    ensures key in storage ==> r == storage[key]
    ensures key !in storage ==> r == ""
  {
    if key in storage && storage[key] != "" then storage[key] else ""
  }

  /** The storage after the two persistence effects: the raw query and the facet under this category's keys. */
  function Persist(storage: map<string, string>, slug: string, searchQuery: string, facet: string): (r: map<string, string>)
    ensures SearchKey(slug) in r && r[SearchKey(slug)] == searchQuery
    ensures FilterKey(slug) in r && r[FilterKey(slug)] == facet
    ensures forall k :: k != SearchKey(slug) && k != FilterKey(slug) ==>
              (k in r <==> k in storage) && (k in storage ==> r[k] == storage[k])
  {
    StorageKeysDistinct(slug, slug);
    storage[SearchKey(slug) := searchQuery][FilterKey(slug) := facet]
  }

  /** What is persisted is restored unchanged (the query untrimmed), and other categories are untouched. */
  lemma RestoreAfterPersist(storage: map<string, string>, slug: string, searchQuery: string, facet: string)
    ensures StoredOr(Persist(storage, slug, searchQuery, facet), SearchKey(slug)) == searchQuery
    ensures StoredOr(Persist(storage, slug, searchQuery, facet), FilterKey(slug)) == facet
    ensures forall other :: other != slug ==>
              && StoredOr(Persist(storage, slug, searchQuery, facet), SearchKey(other)) == StoredOr(storage, SearchKey(other))
              && StoredOr(Persist(storage, slug, searchQuery, facet), FilterKey(other)) == StoredOr(storage, FilterKey(other))
    ensures forall k :: k != SearchKey(slug) && k != FilterKey(slug) ==>
              StoredOr(Persist(storage, slug, searchQuery, facet), k) == StoredOr(storage, k)
  {
    StorageKeysDistinct(slug, slug);
    forall other | other != slug
      ensures && StoredOr(Persist(storage, slug, searchQuery, facet), SearchKey(other)) == StoredOr(storage, SearchKey(other))
              && StoredOr(Persist(storage, slug, searchQuery, facet), FilterKey(other)) == StoredOr(storage, FilterKey(other))
    {
      StorageKeysDistinct(other, slug);
      StorageKeysDistinct(slug, other);
    }
  }

  // ---------------------------------------------------------- the pipeline

  /** `allWords.filter((word) => word.category === resolvedSlug)`. */
  function CategoryWords(words: seq<Word>, slug: string): (r: seq<Word>)
    ensures IsFilterOf(r, words, CategoryIs(slug))
    ensures forall w :: w in r <==> w in words && w.category == slug
  {
    FilterMeetsReference(words, CategoryIs(slug));
    Group(words, slug)
  }

  /** `word.pos ? word.pos.trim() : ''`. */
  function PosOf(w: Word): (r: string)
    ensures IsTrimmed(r)
    ensures w.pos.None? ==> r == ""
    ensures w.pos.Some? ==> r == Trim(w.pos.value)
  {
    match w.pos
    case None => ""
    case Some(p) => if p != "" then Trim(p) else ""
  }

  /** Some option has lower-case form `key` (`unique.has(key)`, and the test of the facet reset). */
  predicate HasKey(options: seq<string>, key: string) {
    exists o :: o in options && Lower(o) == key
  }

  /** The facet options of a word list: each non-empty trimmed `pos` once per lower-case key, first-seen casing, first-seen order. */
  function PosOptionsOf(words: seq<Word>): (options: seq<string>)
    ensures |options| <= |words|
  {
    if words == [] then []
    else
      var options := PosOptionsOf(words[..|words| - 1]);
      var pos := PosOf(words[|words| - 1]);
      if pos == "" || HasKey(options, Lower(pos)) then options else options + [pos]
  }

  /** The values of a JavaScript `Map` that keeps its entries in insertion order. */
  function Values(entries: seq<(string, string)>): (values: seq<string>)
    ensures |values| == |entries|
    ensures forall k :: 0 <= k < |entries| ==> values[k] == entries[k].1
  {
    seq(|entries|, k requires 0 <= k < |entries| => entries[k].1)
  }

  /** `unique.has(key)` on the `Map`, held as its entries in insertion order. */
  predicate MapHas(unique: seq<(string, string)>, key: string) {
    exists k :: 0 <= k < |unique| && unique[k].0 == key
  }

  /** The `Map` after the `forEach` callback has visited `w`. */
  function Visit(unique: seq<(string, string)>, w: Word): seq<(string, string)> {
    var pos := PosOf(w);
    if pos != "" && !MapHas(unique, Lower(pos)) then unique + [(Lower(pos), pos)] else unique
  }

  /** The `Map` built so far: keyed by lower-case form, its values the options of the visited words. */
  predicate MapOf(unique: seq<(string, string)>, visited: seq<Word>) {
    && Values(unique) == PosOptionsOf(visited)
    && forall k :: 0 <= k < |unique| ==> unique[k].0 == Lower(unique[k].1)
  }

  /** One callback keeps the `Map` equal to the options of the visited words. */
  lemma VisitKeepsMap(unique: seq<(string, string)>, visited: seq<Word>, w: Word)
    requires MapOf(unique, visited)
    ensures MapOf(Visit(unique, w), visited + [w])
  {
    PosOptionsSnoc(visited, w);
    var pos := PosOf(w);
    if pos != "" {
      var key := Lower(pos);
      HasKeyEntries(unique, key);
      if !MapHas(unique, key) {
        ValuesSnoc(unique, (key, pos));
        assert Visit(unique, w) == unique + [(key, pos)];
      } else {
        assert Visit(unique, w) == unique;
      }
    } else {
      assert Visit(unique, w) == unique;
    }
  }

  /** The `posOptions` memo: fill a `Map` from lower-case key to first-seen `pos`, then take its values. */
  method PosOptions(categoryWords: seq<Word>) returns (options: seq<string>)
    ensures options == PosOptionsOf(categoryWords)
  {
    var unique: seq<(string, string)> := [];
    for i := 0 to |categoryWords|
      invariant MapOf(unique, categoryWords[..i])
    {
      var word := categoryWords[i];
      ghost var before := unique;
      var pos := if word.pos.Some? && word.pos.value != "" then Trim(word.pos.value) else "";
      assert pos == PosOf(word);
      if pos != "" {
        var key := Lower(pos);
        if !MapHas(unique, key) {
          unique := unique + [(key, pos)];
        }
      }
      assert unique == Visit(before, word);
      VisitKeepsMap(before, categoryWords[..i], word);
      PrefixSnoc(categoryWords, i);
    }
    PrefixFull(categoryWords);
    options := Values(unique);
  }

  lemma ValuesSnoc(entries: seq<(string, string)>, e: (string, string))
    ensures Values(entries + [e]) == Values(entries) + [e.1]
  {
  }

  /** With every key the lower-case form of its value, looking up a key is asking whether some value has that key. */
  lemma HasKeyEntries(entries: seq<(string, string)>, key: string)
    requires forall k :: 0 <= k < |entries| ==> entries[k].0 == Lower(entries[k].1)
    ensures (exists k :: 0 <= k < |entries| && entries[k].0 == key) <==> HasKey(Values(entries), key)
  {
    if HasKey(Values(entries), key) {
      var o :| o in Values(entries) && Lower(o) == key;
      var k :| 0 <= k < |entries| && Values(entries)[k] == o;
      assert entries[k].0 == key;
    }
    if exists k :: 0 <= k < |entries| && entries[k].0 == key {
      var k :| 0 <= k < |entries| && entries[k].0 == key;
      assert Values(entries)[k] in Values(entries);
    }
  }

  /** One more word adds at most its own `pos` at the end, and only when its key is new. */
  lemma PosOptionsSnoc(words: seq<Word>, w: Word)
    ensures var options := PosOptionsOf(words);
            var pos := PosOf(w);
            PosOptionsOf(words + [w]) == if pos == "" || HasKey(options, Lower(pos)) then options else options + [pos]
  {
    SnocInit(words, w);
  }

  /** No two options are equal once lower-cased. */
  predicate KeysDistinct(options: seq<string>) {
    forall i, j :: 0 <= i < j < |options| ==> Lower(options[i]) != Lower(options[j])
  }

  /** Adding an option whose key is new keeps the keys distinct. */
  lemma KeysDistinctSnoc(options: seq<string>, pos: string)
    requires KeysDistinct(options) && !HasKey(options, Lower(pos))
    ensures KeysDistinct(options + [pos])
  {
    forall i | 0 <= i < |options| ensures Lower(options[i]) != Lower(pos) {
      assert options[i] in options;
    }
  }

  /** The options never hold two values that differ only in case. */
  lemma {:induction false} PosOptionsDistinct(words: seq<Word>)
    ensures KeysDistinct(PosOptionsOf(words))
  {
    if words != [] {
      var init, w := words[..|words| - 1], words[|words| - 1];
      InitLast(words);
      PosOptionsDistinct(init);
      PosOptionsSnoc(init, w);
      var options, pos := PosOptionsOf(init), PosOf(w);
      if !(pos == "" || HasKey(options, Lower(pos))) {
        KeysDistinctSnoc(options, pos);
      }
    }
  }

  /** Every option is the trimmed `pos` of some word of the list, and is not empty. */
  lemma {:induction false} PosOptionsFromWords(words: seq<Word>)
    ensures forall o :: o in PosOptionsOf(words) ==> o != "" && exists w :: w in words && PosOf(w) == o
  {
    if words != [] {
      var init := words[..|words| - 1];
      PosOptionsFromWords(init);
      assert forall w :: w in init ==> w in words;
    }
  }

  /** Every word with a non-empty `pos` is represented by an option with the same lower-case key. */
  lemma {:induction false} PosOptionsCover(words: seq<Word>)
    ensures forall w :: w in words && PosOf(w) != "" ==> HasKey(PosOptionsOf(words), Lower(PosOf(w)))
  {
    if words != [] {
      var init := words[..|words| - 1];
      PosOptionsCover(init);
      InitLast(words);
      forall w | w in words && PosOf(w) != "" ensures HasKey(PosOptionsOf(words), Lower(PosOf(w))) {
        if w in init {
          var o :| o in PosOptionsOf(init) && Lower(o) == Lower(PosOf(w));
          assert o in PosOptionsOf(words);
        } else {
          assert w == words[|words| - 1];
        }
      }
    }
  }

  /** The option for a key carries the casing of the first word with that key. */
  lemma PosOptionsFirstSeen(words: seq<Word>, i: int)
    requires 0 <= i < |words| && PosOf(words[i]) != ""
    requires forall j :: 0 <= j < i ==> Lower(PosOf(words[j])) != Lower(PosOf(words[i]))
    ensures PosOf(words[i]) in PosOptionsOf(words)
  {
    assert forall v :: v in words[..i] ==> Lower(PosOf(v)) != Lower(PosOf(words[i])) by {
      forall v | v in words[..i] ensures Lower(PosOf(v)) != Lower(PosOf(words[i])) {
        var j :| 0 <= j < i && words[..i][j] == v;
      }
    }
    PosOptionsNewKey(words, i);
    PosOptionsKeep(words, i + 1, PosOf(words[i]));
  }

  /** A word whose key no earlier word has contributes its own `pos` as the option. */
  lemma PosOptionsNewKey(words: seq<Word>, i: int)
    requires 0 <= i < |words| && PosOf(words[i]) != ""
    requires forall v :: v in words[..i] ==> Lower(PosOf(v)) != Lower(PosOf(words[i]))
    ensures PosOf(words[i]) in PosOptionsOf(words[..i + 1])
  {
    assert !HasKey(PosOptionsOf(words[..i]), Lower(PosOf(words[i]))) by {
      PosOptionsFromWords(words[..i]);
    }
    PosOptionsSnoc(words[..i], words[i]);
    PrefixSnoc(words, i);
  }

  /** An option of a prefix stays an option of the whole list. */
  lemma PosOptionsKeep(words: seq<Word>, n: nat, o: string)
    requires n <= |words| && o in PosOptionsOf(words[..n])
    ensures o in PosOptionsOf(words)
  {
    assert PosOptionsOf(words[..n]) <= PosOptionsOf(words) by {
      PosOptionsPrefix(words, n);
    }
  }

  lemma PrefixTransitive(a: seq<string>, b: seq<string>, c: seq<string>)
    requires a <= b && b <= c
    ensures a <= c
  {
    assert a == b[..|a|] == c[..|b|][..|a|] == c[..|a|];
  }

  lemma PosOptionsSnocGrows(words: seq<Word>, w: Word)
    ensures PosOptionsOf(words) <= PosOptionsOf(words + [w])
  {
    PosOptionsSnoc(words, w);
  }

  /** Appending words only extends the options. */
  lemma {:induction false} PosOptionsGrow(words: seq<Word>, more: seq<Word>)
    ensures PosOptionsOf(words) <= PosOptionsOf(words + more)
    decreases |more|
  {
    if more == [] {
      assert words + more == words;
    } else {
      var init, last := more[..|more| - 1], more[|more| - 1];
      var grown := words + init + [last];
      assert PosOptionsOf(words) <= PosOptionsOf(grown) by {
        PosOptionsGrow(words, init);
        PosOptionsSnocGrows(words + init, last);
        PrefixTransitive(PosOptionsOf(words), PosOptionsOf(words + init), PosOptionsOf(grown));
      }
      assert words + more == grown;
    }
  }

  /** Options only grow as words are added, so earlier-seen options come first. */
  lemma PosOptionsPrefix(words: seq<Word>, n: nat)
    requires n <= |words|
    ensures PosOptionsOf(words[..n]) <= PosOptionsOf(words)
  {
    PosOptionsGrow(words[..n], words[n..]);
    SplitAt(words, n);
  }

  /** The facet-reset effect: a non-empty facet that matches no option is cleared, but only when there are options. */
  function FacetAfterReset(facet: string, options: seq<string>): (r: string)
    ensures r == "" || r == facet
    ensures r == "" <==> facet == "" || (options != [] && !HasKey(options, Lower(facet)))
  {
    if facet == "" then facet
    else if |options| == 0 then facet
    else if !HasKey(options, Lower(facet)) then ""
    else facet
  }

  /** After the reset the facet is empty, or there are no options, or it matches one; a second reset changes nothing. */
  lemma FacetResetSettles(facet: string, options: seq<string>)
    ensures var r := FacetAfterReset(facet, options);
            && (r == "" || options == [] || HasKey(options, Lower(r)))
            && FacetAfterReset(r, options) == r
  {
  }

  /** `(word.pos || '').toLowerCase() === target`. */
  function PosIs(target: string): Word -> bool {
    (w: Word) => Lower(match w.pos case None => "" case Some(p) => p) == target
  }

  /** `filteredByPos`: everything when no facet is selected, else the words whose lower-cased `pos` is the lower-cased facet. */
  function FilteredByPos(categoryWords: seq<Word>, facet: string): (r: seq<Word>)
    ensures facet == "" ==> r == categoryWords
    ensures facet != "" ==> IsFilterOf(r, categoryWords, PosIs(Lower(facet)))
  {
    if facet == "" then categoryWords
    else
      FilterMeetsReference(categoryWords, PosIs(Lower(facet)));
      Filter(categoryWords, PosIs(Lower(facet)))
  }

  /** The search test: the lower-cased term or some lower-cased definition contains `query`. */
  predicate MatchesQuery(w: Word, query: string)
    ensures MatchesQuery(w, query) <==>
              || (exists i :: OccursAt(Lower(w.term_en), query, i))
              || (exists d, i :: d in w.definitions_en && OccursAt(Lower(d), query, i))
  {
    || Includes(Lower(w.term_en), query)
    || exists d :: d in w.definitions_en && Includes(Lower(d), query)
  }

  function Matching(query: string): Word -> bool {
    (w: Word) => MatchesQuery(w, query)
  }

  /** `filteredWords`: everything when the trimmed query is empty, else the words matching the lower-cased trimmed query. */
  function FilteredWords(filteredByPos: seq<Word>, searchQuery: string): (r: seq<Word>)
    ensures Trim(searchQuery) == "" ==> r == filteredByPos
    ensures Trim(searchQuery) != "" ==> IsFilterOf(r, filteredByPos, Matching(Lower(Trim(searchQuery))))
  {
    var normalizedQuery := Trim(searchQuery);
    if normalizedQuery == "" then filteredByPos
    else
      var query := Lower(normalizedQuery);
      FilterMeetsReference(filteredByPos, Matching(query));
      Filter(filteredByPos, Matching(query))
  }

  /** The words the page lists for `words`, `slug`, the raw query and the facet. */
  function VisibleWords(words: seq<Word>, slug: string, searchQuery: string, facet: string): (r: seq<Word>)
    ensures forall w :: w in r ==> w in words && w.category == slug
  {
    FilteredWords(FilteredByPos(CategoryWords(words, slug), facet), searchQuery)
  }

  /** Every listed word belongs to the category and the list keeps the order of the loaded words. */
  lemma VisibleWordsInCategory(words: seq<Word>, slug: string, searchQuery: string, facet: string)
    ensures var visible := VisibleWords(words, slug, searchQuery, facet);
            && IsSubsequence(visible, words)
            && forall w :: w in visible ==> w in words && w.category == slug
  {
    var inCategory := CategoryWords(words, slug);
    var byPos := FilteredByPos(inCategory, facet);
    var visible := FilteredWords(byPos, searchQuery);
    if facet == "" {
      SubsequenceReflexive(inCategory);
    }
    if Trim(searchQuery) == "" {
      SubsequenceReflexive(byPos);
    }
    SubsequenceTransitive(byPos, inCategory, words);
    SubsequenceTransitive(visible, byPos, words);
    SubsequenceMembers(visible, byPos);
    SubsequenceMembers(byPos, inCategory);
  }

  /** A word is listed exactly when it is in the category, passes the facet and matches the trimmed query. */
  lemma VisibleWordsExactly(words: seq<Word>, slug: string, searchQuery: string, facet: string, w: Word)
    ensures w in VisibleWords(words, slug, searchQuery, facet) <==>
              && w in words && w.category == slug
              && (facet == "" || PosIs(Lower(facet))(w))
              && (Trim(searchQuery) == "" || MatchesQuery(w, Lower(Trim(searchQuery))))
  {
    var inCategory := CategoryWords(words, slug);
    var byPos := FilteredByPos(inCategory, facet);
    if facet != "" && w in inCategory && PosIs(Lower(facet))(w) {
      assert multiset(byPos)[w] == multiset(inCategory)[w];
    }
    var visible := FilteredWords(byPos, searchQuery);
    if Trim(searchQuery) != "" && w in byPos && MatchesQuery(w, Lower(Trim(searchQuery))) {
      assert Matching(Lower(Trim(searchQuery)))(w);
      assert multiset(visible)[w] == multiset(byPos)[w];
    }
    if facet != "" && w in byPos {
      SubsequenceMembers(byPos, inCategory);
    }
    if Trim(searchQuery) != "" && w in visible {
      SubsequenceMembers(visible, byPos);
    }
  }

  // ------------------------------------------------------------ empty state

  /** What the list area shows. */
  datatype ListView = Loading | WordList(words: seq<Word>) | NotFound | NoWordsYet

  /** Loading first; then the words; with none, "not found" when a query or facet is active, else "no words yet". */
  function View(isLoading: bool, filteredWords: seq<Word>, searchQuery: string, facet: string): (v: ListView)
    ensures isLoading <==> v == Loading
    ensures v.WordList? <==> !isLoading && |filteredWords| > 0
    ensures v.WordList? ==> v.words == filteredWords
    ensures v == NotFound <==> !isLoading && |filteredWords| == 0 && (Trim(searchQuery) != "" || facet != "")
  {
    if isLoading then Loading
    else if |filteredWords| > 0 then WordList(filteredWords)
    else if Trim(searchQuery) != "" || facet != "" then NotFound
    else NoWordsYet
  }

  // --------------------------------------------------------- page state

  /** The page's state for one category: the loaded words, the loading flag, `searchQuery` and `activeFilter`. */
  class FilterState {
    const slug: string
    var allWords: seq<Word>
    var isLoading: bool
    var searchQuery: string
    var facet: string

    /** `useState([])`, `useState(true)` and `useState('')` twice. */
    constructor(slug: string)
      ensures this.slug == slug && allWords == [] && isLoading
      ensures searchQuery == "" && facet == ""
    {
      this.slug := slug;
      allWords := [];
      isLoading := true;
      searchQuery := "";
      facet := "";
    }

    /**
     * The end of the loading effect. `loaded` is what `loadWords()` resolved to, `None` when it
     * rejected (the list is then empty); `mounted` is false once the page has gone, and then
     * nothing changes.
     */
    method FinishLoading(loaded: Option<seq<Word>>, mounted: bool)
      modifies this`allWords, this`isLoading
      ensures !mounted ==> allWords == old(allWords) && isLoading == old(isLoading)
      ensures mounted ==> !isLoading && allWords == match loaded case Some(ws) => ws case None => []
    {
      if !mounted {
        return;
      }
      match loaded {
        case Some(ws) => allWords := ws;
        case None => allWords := [];
      }
      isLoading := false;
    }

    /** The restore effect: outside a browser nothing changes; otherwise both values come from storage, `''` when absent. */
    method Restore(storage: Option<map<string, string>>)
      modifies this`searchQuery, this`facet
      ensures storage.None? ==> searchQuery == old(searchQuery) && facet == old(facet)
      ensures storage.Some? ==> && searchQuery == StoredOr(storage.value, SearchKey(slug))
                                && facet == StoredOr(storage.value, FilterKey(slug))
    {
      if storage.None? {
        return;
      }
      searchQuery := StoredOr(storage.value, SearchKey(slug));
      facet := StoredOr(storage.value, FilterKey(slug));
    }

    /** `SearchBar`'s `onChange`: the raw text is kept, untrimmed. */
    method SetSearchQuery(value: string)
      modifies this`searchQuery
      ensures searchQuery == value
    {
      searchQuery := value;
    }

    /** `FilterPills`' `onChange`. */
    method SetFacet(value: string)
      modifies this`facet
      ensures facet == value
    {
      facet := value;
    }

    /** The facet-reset effect, run against the current options. */
    method ResetStaleFacet(options: seq<string>)
      modifies this`facet
      ensures facet == FacetAfterReset(old(facet), options)
      ensures facet == "" || options == [] || HasKey(options, Lower(facet))
    {
      if facet == "" {
        return;
      }
      if |options| == 0 {
        return;
      }
      var found := exists o :: o in options && Lower(o) == Lower(facet);
      if !found {
        facet := "";
      }
    }

    /** The two persistence effects: outside a browser nothing is written. */
    function Persisted(storage: Option<map<string, string>>): (r: Option<map<string, string>>)
      reads this
      ensures storage.None? <==> r.None?
      ensures r.Some? ==> && StoredOr(r.value, SearchKey(slug)) == searchQuery
                          && StoredOr(r.value, FilterKey(slug)) == facet
      ensures r.Some? ==> && SearchKey(slug) in r.value && r.value[SearchKey(slug)] == searchQuery
                          && FilterKey(slug) in r.value && r.value[FilterKey(slug)] == facet
      ensures r.Some? ==> forall k :: k != SearchKey(slug) && k != FilterKey(slug) ==>
                (k in r.value <==> k in storage.value) && (k in storage.value ==> r.value[k] == storage.value[k])
    {
      match storage
      case None => None
      case Some(s) =>
        RestoreAfterPersist(s, slug, searchQuery, facet);
        Some(Persist(s, slug, searchQuery, facet))
    }

    /** What the list area shows for the current state. */
    function CurrentView(): (v: ListView)
      reads this
      ensures v.WordList? ==> forall w :: w in v.words ==> w in allWords && w.category == slug
    {
      VisibleWordsInCategory(allWords, slug, searchQuery, facet);
      View(isLoading, VisibleWords(allWords, slug, searchQuery, facet), searchQuery, facet)
    }
  }
}
