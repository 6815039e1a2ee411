/**
 * Loading the word list (src/utils/dataLoader.js): each CSV row or JSON entry
 * is either rejected or turned into a canonical `Word`; the loader prefers the
 * CSV file and falls back to the bundled JSON; `GroupByCategory` partitions a
 * word list by category.
 */
module DataLoader {
  import opened Wrappers
  import opened JsString
  import opened Seqs

  /** The closed set of category slugs. */
  const ValidCategories: set<string> :=
    {"control-project", "economics", "production-planning", "or", "quality"}

  /** One usage example: English sentence and Persian translation. */
  datatype Example = Example(en: string, fa: string)

  /** The `tags` property of a word: omitted, or a list of tags. */
  datatype Tags = NoTags | Tags(items: seq<string>)

  /** The canonical word record; `pos` and `tags` are omitted (None, NoTags) rather than empty. */
  datatype Word = Word(
    id: string,
    category: string,
    term_en: string,
    definitions_en: seq<string>,
    examples: seq<Example>,
    pos: Option<string>,
    tags: Tags)

  /** A string-valued property as JavaScript reads it: `undefined`/`null`, or a string. */
  datatype Field = Missing | Text(s: string)

  predicate IsNonEmpty(s: string) {
    s != ""
  }

  /** The examples kept: at least one side is non-empty. */
  predicate HasText(e: Example) {
    e.en != "" || e.fa != ""
  }

  /** What every word built by the normalisers satisfies. */
  predicate Canonical(w: Word) {
    && w.id != "" && IsTrimmed(w.id)
    && w.category in ValidCategories
    && w.term_en != "" && IsTrimmed(w.term_en)
    && (forall d :: d in w.definitions_en ==> d != "" && IsTrimmed(d))
    && (forall e :: e in w.examples ==> HasText(e) && IsTrimmed(e.en) && IsTrimmed(e.fa))
    && (w.pos.Some? ==> w.pos.value != "" && IsTrimmed(w.pos.value))
    && (w.tags.Tags? ==> forall t :: t in w.tags.items ==> t != "" && IsTrimmed(t))
  }

  /** `trimValue`: a string is trimmed, an absent value becomes the empty string. */
  function TrimValue(f: Field): (r: string)
    ensures IsTrimmed(r)
    ensures f.Missing? ==> r == ""
    ensures f.Text? ==> r == Trim(f.s)
  {
    match f
    case Missing => ""
    case Text(s) => Trim(s)
  }

  /** `.filter(Boolean)` on strings. */
  function NonEmpty(xs: seq<string>): (r: seq<string>)
    ensures forall x :: x in r <==> x in xs && x != ""
  {
    Filter(xs, IsNonEmpty)
  }

  /** `.filter((pair) => pair.en || pair.fa)`. */
  function KeepExamples(pairs: seq<Example>): (r: seq<Example>)
    ensures forall e :: e in r <==> e in pairs && HasText(e)
  {
    Filter(pairs, HasText)
  }

  function TrimEach(xs: seq<string>): (r: seq<string>)
    ensures |r| == |xs|
    ensures forall k :: 0 <= k < |xs| ==> r[k] == Trim(xs[k])
  {
    seq(|xs|, k requires 0 <= k < |xs| => Trim(xs[k]))
  }

  /** No piece of a comma split, once trimmed, contains a comma. */
  lemma TrimmedPiecesHaveNoComma(value: string)
    ensures forall k :: 0 <= k < |Split(value, ',')| ==> ',' !in TrimEach(Split(value, ','))[k]
  {
    var parts := Split(value, ',');
    forall k | 0 <= k < |parts| ensures ',' !in TrimEach(parts)[k] {
      TrimKeepsOut(parts[k], ',');
    }
  }

  /** `value.split(',').map((tag) => tag.trim()).filter(Boolean)`. */
  function SplitTags(value: string): (tags: seq<string>)
    ensures forall t :: t in tags ==> t != "" && IsTrimmed(t) && ',' !in t
  {
    var pieces := TrimEach(Split(value, ','));
    TrimmedPiecesHaveNoComma(value);
    NonEmpty(pieces)
  }

  /** The tags are exactly the non-empty trimmed comma-separated pieces, in order. */
  lemma SplitTagsMeetsReference(value: string)
    ensures IsFilterOf(SplitTags(value), TrimEach(Split(value, ',')), IsNonEmpty)
  {
    FilterMeetsReference(TrimEach(Split(value, ',')), IsNonEmpty);
  }

  // ---------------------------------------------------------------- CSV rows

  /** One parsed CSV record: header name to cell text; a column the line lacks is absent. */
  type Row = map<string, string>

  function Column(row: Row, name: string): Field {
    if name in row then Text(row[name]) else Missing
  }

  /** `trimValue(row[name])`. */
  function Cell(row: Row, name: string): string {
    TrimValue(Column(row, name))
  }

  function RowDefinitionSlots(row: Row): (slots: seq<string>)
    ensures |slots| == 3 && forall d :: d in slots ==> IsTrimmed(d)
  {
    [Cell(row, "def1_en"), Cell(row, "def2_en"), Cell(row, "def3_en")]
  }

  function RowExampleSlots(row: Row): (slots: seq<Example>)
    ensures |slots| == 3 && forall e :: e in slots ==> IsTrimmed(e.en) && IsTrimmed(e.fa)
  {
    [ Example(Cell(row, "ex1_en"), Cell(row, "ex1_fa")),
      Example(Cell(row, "ex2_en"), Cell(row, "ex2_fa")),
      Example(Cell(row, "ex3_en"), Cell(row, "ex3_fa")) ]
  }

  /** The definitions of a CSV row: the non-empty trimmed `def1_en`..`def3_en`, in column order. */
  function RowDefinitions(row: Row): (defs: seq<string>)
    ensures |defs| <= 3
    ensures forall d :: d in defs ==> d != "" && IsTrimmed(d)
    ensures IsFilterOf(defs, RowDefinitionSlots(row), IsNonEmpty)
  {
    FilterMeetsReference(RowDefinitionSlots(row), IsNonEmpty);
    NonEmpty(RowDefinitionSlots(row))
  }

  /** The examples of a CSV row: the pairs `ex1`..`ex3` with some text, in column order. */
  function RowExamples(row: Row): (examples: seq<Example>)
    ensures |examples| <= 3
    ensures forall e :: e in examples ==> HasText(e) && IsTrimmed(e.en) && IsTrimmed(e.fa)
    ensures IsFilterOf(examples, RowExampleSlots(row), HasText)
  {
    FilterMeetsReference(RowExampleSlots(row), HasText);
    KeepExamples(RowExampleSlots(row))
  }

  /** The three mandatory trimmed fields are present and the category is known. */
  predicate Admissible(id: string, category: string, term: string) {
    !(id == "" || category == "" || term == "" || category !in ValidCategories)
  }

  /** `normalizeRow`: a CSV record becomes a word, or is rejected (None). */
  function NormalizeRow(row: Row): (r: Option<Word>)
    ensures r.None? <==> (Cell(row, "id") == "" || Cell(row, "category") == ""
                          || Cell(row, "term_en") == "" || Cell(row, "category") !in ValidCategories)
    ensures r.Some? ==> Canonical(r.value)
    ensures r.Some? ==> && r.value.id == Cell(row, "id")
                        && r.value.category == Cell(row, "category")
                        && r.value.term_en == Cell(row, "term_en")
    ensures r.Some? ==> r.value.definitions_en == RowDefinitions(row) && r.value.examples == RowExamples(row)
    ensures r.Some? ==> (r.value.pos.Some? <==> Cell(row, "pos") != "")
                        && (r.value.pos.Some? ==> r.value.pos.value == Cell(row, "pos"))
    ensures r.Some? ==> (r.value.tags.Tags? <==> Cell(row, "tags") != "")
                        && (r.value.tags.Tags? ==> r.value.tags.items == SplitTags(Cell(row, "tags")))
  {
    var id := Cell(row, "id");
    var category := Cell(row, "category");
    var term := Cell(row, "term_en");
    if !Admissible(id, category, term) then None
    else
      var posValue := Cell(row, "pos");
      var tagsValue := Cell(row, "tags");
      Some(Word(id, category, term, RowDefinitions(row), RowExamples(row),
                if posValue != "" then Some(posValue) else None,
                if tagsValue != "" then Tags(SplitTags(tagsValue)) else NoTags))
  }

  // ------------------------------------------------------------ JSON entries

  /** `definitions_en`, which the code tests with `Array.isArray`. */
  datatype DefinitionsField = DefinitionsNotAList | DefinitionList(items: seq<Field>)

  /** `examples`, which the code tests with `Array.isArray`. */
  datatype ExamplesField = ExamplesNotAList | ExampleList(pairs: seq<PairField>)

  /** An element of `examples`, read with `pair?.en` / `pair?.fa`. */
  datatype PairField = NotAPair | Pair(en: Field, fa: Field)

  /** `tags`: absent, an array, or a comma-separated string. */
  datatype TagsField = TagsMissing | TagList(items: seq<Field>) | TagText(s: string)

  /** One element of the bundled JSON array; `NullEntry` is a falsy element. */
  datatype Entry =
    | NullEntry
    | Entry(id: Field, category: Field, term_en: Field,
            definitions_en: DefinitionsField, examples: ExamplesField,
            pos: Field, tags: TagsField)

  predicate FieldTruthy(f: Field) {
    f.Text? && f.s != ""
  }

  function TrimEachValue(fs: seq<Field>): (r: seq<string>)
    ensures |r| == |fs|
    ensures forall k :: 0 <= k < |fs| ==> r[k] == TrimValue(fs[k])
  {
    seq(|fs|, k requires 0 <= k < |fs| => TrimValue(fs[k]))
  }

  function PairExample(p: PairField): Example {
    match p
    case NotAPair => Example("", "")
    case Pair(en, fa) => Example(TrimValue(en), TrimValue(fa))
  }

  function EntryExampleSlots(pairs: seq<PairField>): (r: seq<Example>)
    ensures |r| == |pairs|
    ensures forall k :: 0 <= k < |pairs| ==> r[k] == PairExample(pairs[k])
  {
    seq(|pairs|, k requires 0 <= k < |pairs| => PairExample(pairs[k]))
  }

  function EntryDefinitions(f: DefinitionsField): (r: seq<string>)
    ensures f.DefinitionsNotAList? ==> r == []
    ensures forall d :: d in r ==> d != "" && IsTrimmed(d)
  {
    match f
    case DefinitionsNotAList => []
    case DefinitionList(items) => NonEmpty(TrimEachValue(items))
  }

  function EntryExamples(f: ExamplesField): (r: seq<Example>)
    ensures f.ExamplesNotAList? ==> r == []
    ensures forall e :: e in r ==> HasText(e) && IsTrimmed(e.en) && IsTrimmed(e.fa)
  {
    match f
    case ExamplesNotAList => []
    case ExampleList(pairs) => KeepExamples(EntryExampleSlots(pairs))
  }

  /** `if (entry.pos) { ... }`. */
  function EntryPos(f: Field): (r: Option<string>)
    ensures r.Some? <==> TrimValue(f) != ""
    ensures r.Some? ==> r.value == TrimValue(f)
  {
    if FieldTruthy(f) then
      var posValue := TrimValue(f);
      if posValue != "" then Some(posValue) else None
    else None
  }

  /** `tagsValue`: the trimmed non-empty array elements, or the split of a non-empty string, or nothing. */
  function TagValue(f: TagsField): (r: seq<string>)
    ensures f.TagsMissing? ==> r == []
    ensures f.TagText? ==> r == if f.s == "" then [] else SplitTags(Trim(f.s))
    ensures forall t :: t in r ==> t != "" && IsTrimmed(t)
  {
    match f
    case TagsMissing => []
    case TagList(items) => NonEmpty(TrimEachValue(items))
    case TagText(s) => if s == "" then [] else SplitTags(Trim(s))
  }

  /** Array tags are the trimmed elements that are not empty, in order and with their repetitions. */
  lemma TagListMeetsReference(items: seq<Field>)
    ensures IsFilterOf(TagValue(TagList(items)), TrimEachValue(items), IsNonEmpty)
  {
    FilterMeetsReference(TrimEachValue(items), IsNonEmpty);
  }

  /** `if (entry.tags) { ... }`: the tags, when the resulting list is non-empty. */
  function EntryTags(f: TagsField): (r: Tags)
    ensures r.Tags? <==> |TagValue(f)| > 0
    ensures r.Tags? ==> r.items == TagValue(f)
  {
    var tagsValue := TagValue(f);
    if |tagsValue| > 0 then Tags(tagsValue) else NoTags
  }

  lemma EntryListsMeetReference(defs: DefinitionsField, examples: ExamplesField)
    ensures match defs
            case DefinitionsNotAList => EntryDefinitions(defs) == []
            case DefinitionList(items) => IsFilterOf(EntryDefinitions(defs), TrimEachValue(items), IsNonEmpty)
    ensures match examples
            case ExamplesNotAList => EntryExamples(examples) == []
            case ExampleList(pairs) => IsFilterOf(EntryExamples(examples), EntryExampleSlots(pairs), HasText)
  {
    if defs.DefinitionList? {
      FilterMeetsReference(TrimEachValue(defs.items), IsNonEmpty);
    }
    if examples.ExampleList? {
      FilterMeetsReference(EntryExampleSlots(examples.pairs), HasText);
    }
  }

  /** `normalizeJsonEntry`: a JSON entry becomes a word, or is rejected (None). */
  function NormalizeEntry(entry: Entry): (r: Option<Word>)
    ensures entry.NullEntry? ==> r.None?
    ensures entry.Entry? ==>
              (r.None? <==> (TrimValue(entry.id) == "" || TrimValue(entry.category) == ""
                             || TrimValue(entry.term_en) == "" || TrimValue(entry.category) !in ValidCategories))
    ensures r.Some? ==> Canonical(r.value)
    ensures r.Some? ==> && r.value.id == TrimValue(entry.id)
                        && r.value.category == TrimValue(entry.category)
                        && r.value.term_en == TrimValue(entry.term_en)
    ensures r.Some? ==> match entry.definitions_en
                        case DefinitionsNotAList => r.value.definitions_en == []
                        case DefinitionList(items) => IsFilterOf(r.value.definitions_en, TrimEachValue(items), IsNonEmpty)
    ensures r.Some? ==> match entry.examples
                        case ExamplesNotAList => r.value.examples == []
                        case ExampleList(pairs) => IsFilterOf(r.value.examples, EntryExampleSlots(pairs), HasText)
    ensures r.Some? ==> (r.value.pos.Some? <==> TrimValue(entry.pos) != "")
                        && (r.value.pos.Some? ==> r.value.pos.value == TrimValue(entry.pos))
    ensures r.Some? ==> (r.value.tags.Tags? <==> |TagValue(entry.tags)| > 0)
                        && (r.value.tags.Tags? ==> r.value.tags.items == TagValue(entry.tags))
  {
    match entry
    case NullEntry => None
    case Entry(_, _, _, _, _, _, _) =>
      var id := TrimValue(entry.id);
      var category := TrimValue(entry.category);
      var term := TrimValue(entry.term_en);
      if !Admissible(id, category, term) then None
      else
        EntryListsMeetReference(entry.definitions_en, entry.examples);
        Some(Word(id, category, term, EntryDefinitions(entry.definitions_en),
                  EntryExamples(entry.examples), EntryPos(entry.pos), EntryTags(entry.tags)))
  }

  // ------------------------------------------------------------------ loading

  /** `parsed.data.map((row) => normalizeRow(row)).filter(Boolean)`: only canonical words survive. */
  function NormalizeRows(rows: seq<Row>): (words: seq<Word>)
    ensures |words| <= |rows|
    ensures forall w :: w in words ==> Canonical(w)
  {
    FilterMapMembers(rows, NormalizeRow);
    FilterMap(rows, NormalizeRow)
  }

  /** Every loaded word is the normalisation of some row. */
  lemma {:induction false} NormalizeRowsSound(rows: seq<Row>)
    ensures forall w :: w in NormalizeRows(rows) ==> exists i :: 0 <= i < |rows| && NormalizeRow(rows[i]) == Some(w)
  {
    FilterMapMembers(rows, NormalizeRow);
    assert NormalizeRows(rows) == FilterMap(rows, NormalizeRow);
  }

  /** Every row that `normalizeRow` accepts contributes its word. */
  lemma {:induction false} NormalizeRowsComplete(rows: seq<Row>)
    ensures forall i :: 0 <= i < |rows| && NormalizeRow(rows[i]).Some? ==> NormalizeRow(rows[i]).value in NormalizeRows(rows)
  {
    FilterMapMembers(rows, NormalizeRow);
    assert NormalizeRows(rows) == FilterMap(rows, NormalizeRow);
  }

  /** No word survives exactly when every row is rejected. */
  lemma {:induction false} NormalizeRowsEmpty(rows: seq<Row>)
    ensures |NormalizeRows(rows)| == 0 <==> forall i :: 0 <= i < |rows| ==> NormalizeRow(rows[i]).None?
  {
    FilterMapMembers(rows, NormalizeRow);
  }

  /**
   * The loaded words keep the order of their rows: the rows of `a` before those of `b`,
   * and one row yields its word when `normalizeRow` accepts it and nothing otherwise.
   */
  lemma NormalizeRowsInOrder(a: seq<Row>, b: seq<Row>, row: Row)
    ensures NormalizeRows(a + b) == NormalizeRows(a) + NormalizeRows(b)
    ensures NormalizeRows([row]) == if NormalizeRow(row).Some? then [NormalizeRow(row).value] else []
  {
    FilterMapAppend(a, b, NormalizeRow);
    FilterMapSingle(row, NormalizeRow);
  }

  /** `fallbackModule.default.map((entry) => normalizeJsonEntry(entry)).filter(Boolean)`. */
  function NormalizeEntries(entries: seq<Entry>): (words: seq<Word>)
    ensures |words| <= |entries|
    ensures forall w :: w in words ==> Canonical(w)
  {
    FilterMapMembers(entries, NormalizeEntry);
    FilterMap(entries, NormalizeEntry)
  }

  /** Every fallback word is the normalisation of some entry. */
  lemma {:induction false} NormalizeEntriesSound(entries: seq<Entry>)
    ensures forall w :: w in NormalizeEntries(entries) ==> exists i :: 0 <= i < |entries| && NormalizeEntry(entries[i]) == Some(w)
  {
    FilterMapMembers(entries, NormalizeEntry);
    assert NormalizeEntries(entries) == FilterMap(entries, NormalizeEntry);
  }

  /** Every entry that `normalizeJsonEntry` accepts contributes its word. */
  lemma {:induction false} NormalizeEntriesComplete(entries: seq<Entry>)
    ensures forall i :: 0 <= i < |entries| && NormalizeEntry(entries[i]).Some? ==> NormalizeEntry(entries[i]).value in NormalizeEntries(entries)
  {
    FilterMapMembers(entries, NormalizeEntry);
    assert NormalizeEntries(entries) == FilterMap(entries, NormalizeEntry);
  }

  /** The fallback words keep the order of their entries, as `NormalizeRowsInOrder` states for rows. */
  lemma NormalizeEntriesInOrder(a: seq<Entry>, b: seq<Entry>, entry: Entry)
    ensures NormalizeEntries(a + b) == NormalizeEntries(a) + NormalizeEntries(b)
    ensures NormalizeEntries([entry]) == if NormalizeEntry(entry).Some? then [NormalizeEntry(entry).value] else []
  {
    FilterMapAppend(a, b, NormalizeEntry);
    FilterMapSingle(entry, NormalizeEntry);
  }

  /** The fallback dataset: its normalised entries, or none when the module's default export is not an array. */
  function FallbackWords(fallback: Option<seq<Entry>>): (words: seq<Word>)
    ensures fallback.None? ==> words == []
    ensures forall w :: w in words ==> Canonical(w)
  {
    match fallback
    case None => []
    case Some(entries) => NormalizeEntries(entries)
  }

  /** What `Papa.parse` produced: it threw (or the module failed to load), or `parsed.data`, which may not be an array. */
  datatype ParseOutcome = ParseThrew | Parsed(data: Option<seq<Row>>)

  /** The CSV request: `fetch` or `response.text()` threw, or a response with its status flag, body and parse. */
  datatype CsvFetch = FetchThrew | Response(ok: bool, body: string, parse: ParseOutcome)

  /** The words the CSV path yields; empty whenever one of its steps fails. */
  function CsvWords(csv: CsvFetch): (words: seq<Word>)
    ensures |words| > 0 ==> csv.Response? && csv.ok && Trim(csv.body) != ""
  {
    match csv
    case FetchThrew => []
    case Response(ok, body, parse) =>
      if !ok || Trim(body) == "" then []
      else match parse
        case ParseThrew => []
        case Parsed(None) => []
        case Parsed(Some(rows)) => NormalizeRows(rows)
  }

  /** `loadWords`: the CSV words when there is at least one, otherwise the normalised fallback entries. */
  method LoadWords(csv: CsvFetch, fallback: Option<seq<Entry>>) returns (words: seq<Word>)
    ensures |CsvWords(csv)| > 0 ==> words == CsvWords(csv)
    ensures |CsvWords(csv)| == 0 ==> words == FallbackWords(fallback)
    ensures forall w :: w in words ==> Canonical(w)
  {
    // Every early exit below stands for a `throw` that lands in the `catch` block.
    if csv.FetchThrew? || !csv.ok || Trim(csv.body) == "" || csv.parse.ParseThrew? {
      words := FallbackWords(fallback);
      return;
    }
    var normalizedRows := if csv.parse.data.Some? then NormalizeRows(csv.parse.data.value) else [];
    if |normalizedRows| > 0 {
      words := normalizedRows;
      return;
    }
    words := FallbackWords(fallback);
  }

  /** The predicate `word.category === category` handed to `filter`. */
  function CategoryIs(category: string): Word -> bool {
    (w: Word) => w.category == category
  }

  /** The words of `category`, in input order. */
  function Group(words: seq<Word>, category: string): (g: seq<Word>)
    ensures forall w :: w in g <==> w in words && w.category == category
  {
    Filter(words, CategoryIs(category))
  }

  /** Appending a word extends its own category's group and no other. */
  lemma GroupSnoc(words: seq<Word>, w: Word)
    ensures forall c :: Group(words + [w], c) == Group(words, c) + (if w.category == c then [w] else [])
  {
    forall c ensures Group(words + [w], c) == Group(words, c) + (if w.category == c then [w] else []) {
      FilterSnoc(words, w, CategoryIs(c));
    }
  }

  /** The accumulator after `reduce` has visited `w`: a word with a category is pushed onto its group, created empty when new. */
  function Push(groups: map<string, seq<Word>>, w: Word): (r: map<string, seq<Word>>)
    ensures w.category == "" ==> r == groups
    ensures w.category != "" ==> w.category in r && r[w.category] == (if w.category in groups then groups[w.category] else []) + [w]
    ensures forall c :: c != w.category ==> (c in r <==> c in groups) && (c in groups ==> r[c] == groups[c])
  {
    if w.category == "" then groups
    else groups[w.category := (if w.category in groups then groups[w.category] else []) + [w]]
  }

  /** The accumulator holds exactly the non-empty groups of the words visited so far. */
  ghost predicate GroupsOf(groups: map<string, seq<Word>>, done: seq<Word>) {
    && (forall c :: c in groups <==> c != "" && Group(done, c) != [])
    && (forall c :: c in groups ==> groups[c] == Group(done, c))
  }

  /** One step of `reduce` keeps the accumulator equal to the groups of the visited words. */
  lemma PushKeepsGroups(groups: map<string, seq<Word>>, done: seq<Word>, w: Word)
    requires GroupsOf(groups, done)
    ensures GroupsOf(Push(groups, w), done + [w])
  {
    var next := Push(groups, w);
    forall c
      ensures (c in next <==> c != "" && Group(done + [w], c) != [])
      ensures c in next ==> next[c] == Group(done + [w], c)
    {
      FilterSnoc(done, w, CategoryIs(c));
    }
  }

  /** `groupByCategory`: one group per non-empty category, each holding that category's words in order. */
  method GroupByCategory(words: seq<Word>) returns (groups: map<string, seq<Word>>)
    ensures forall c :: c in groups <==> c != "" && exists w :: w in words && w.category == c
    ensures forall c :: c in groups ==> groups[c] == Group(words, c) && IsSubsequence(groups[c], words)
    ensures forall w :: w in words && w.category != "" ==>
              w.category in groups && multiset(groups[w.category])[w] == multiset(words)[w]
    ensures forall c, w :: c in groups && w in groups[c] ==> w.category == c
  {
    groups := map[];
    var i := 0;
    while i < |words|
      invariant 0 <= i <= |words|
      invariant GroupsOf(groups, words[..i])
    {
      var w := words[i];
      PrefixSnoc(words, i);
      PushKeepsGroups(groups, words[..i], w);
      if w.category != "" {
        var group := if w.category in groups then groups[w.category] else [];
        groups := groups[w.category := group + [w]];
      }
      i := i + 1;
    }
    assert words[..i] == words;
    GroupsOfWords(groups, words);
  }

  /** Once every word is visited, the accumulator is the grouping `groupByCategory` promises. */
  lemma GroupsOfWords(groups: map<string, seq<Word>>, words: seq<Word>)
    requires GroupsOf(groups, words)
    ensures forall c :: c in groups <==> c != "" && exists w :: w in words && w.category == c
    ensures forall c :: c in groups ==> groups[c] == Group(words, c) && IsSubsequence(groups[c], words)
    ensures forall w :: w in words && w.category != "" ==>
              w.category in groups && multiset(groups[w.category])[w] == multiset(words)[w]
    ensures forall c, w :: c in groups && w in groups[c] ==> w.category == c
  {
    forall c ensures c in groups <==> c != "" && exists w :: w in words && w.category == c {
      if c != "" && exists w :: w in words && w.category == c {
        var w :| w in words && w.category == c;
        assert w in Group(words, c);
      }
      if c in groups {
        var g := Group(words, c);
        assert g[0] in g;
      }
    }
    forall c | c in groups ensures IsSubsequence(groups[c], words) {
      FilterIsSubsequence(words, CategoryIs(c));
    }
    forall w | w in words && w.category != ""
      ensures w.category in groups && multiset(groups[w.category])[w] == multiset(words)[w]
    {
      assert w in Group(words, w.category);
      assert groups[w.category] == Filter(words, CategoryIs(w.category));
      assert CategoryIs(w.category)(w);
      FilterMultiplicity(words, CategoryIs(w.category), w);
    }
  }

  /** The predicate `word.category` (truthy) that decides whether a word is grouped at all. */
  function HasCategory(): Word -> bool {
    (w: Word) => w.category != ""
  }

  /** The total size of the groups of the categories `cs`. */
  function GroupSizes(words: seq<Word>, cs: seq<string>): nat {
    if cs == [] then 0 else |Group(words, cs[0])| + GroupSizes(words, cs[1..])
  }

  /** One more word adds one to the total exactly when its category is among `cs`. */
  lemma {:induction false} GroupSizesSnoc(words: seq<Word>, w: Word, cs: seq<string>)
    requires forall i, j :: 0 <= i < j < |cs| ==> cs[i] != cs[j]
    ensures GroupSizes(words + [w], cs) == GroupSizes(words, cs) + (if w.category in cs then 1 else 0)
  {
    if cs != [] {
      GroupSizesSnoc(words, w, cs[1..]);
      GroupSnoc(words, w);
      assert w.category in cs <==> w.category == cs[0] || w.category in cs[1..];
      assert w.category == cs[0] ==> w.category !in cs[1..];
    }
  }

  /** Summed over the categories, the group sizes count every word with a category exactly once. */
  lemma {:induction false} GroupSizesSum(words: seq<Word>, cs: seq<string>)
    requires forall i, j :: 0 <= i < j < |cs| ==> cs[i] != cs[j]
    requires "" !in cs
    requires forall w :: w in words && w.category != "" ==> w.category in cs
    ensures GroupSizes(words, cs) == |Filter(words, HasCategory())|
  {
    if words == [] {
      GroupSizesEmpty(cs);
    } else {
      var init, last := words[..|words| - 1], words[|words| - 1];
      InitLast(words);
      GroupSizesSum(init, cs);
      GroupSizesSnoc(init, last, cs);
      FilterSnoc(init, last, HasCategory());
    }
  }

  lemma {:induction false} GroupSizesEmpty(cs: seq<string>)
    ensures GroupSizes([], cs) == 0
  {
    if cs != [] {
      GroupSizesEmpty(cs[1..]);
    }
  }
}
