/**
 * The flip card of one word (src/components/WordCard.jsx): the first
 * definition shown on the front, the id of the back face, and the two state
 * flags `isFlipped` (which face shows) and `hasFlipped` (whether the back
 * face has ever been shown, and so rendered at all).
 */
module WordCard {
  import opened Wrappers
  import opened JsString
  import opened Seqs
  import opened DataLoader

  /** `definitions_en[0] || ''`. */
  function PrimaryDefinition(definitions: seq<string>): (r: string)
    ensures definitions != [] ==> r == definitions[0]
    ensures definitions == [] ==> r == ""
  {
    if definitions == [] then "" else definitions[0]
  }

  /** The front of a loaded CSV word shows its first filled definition column. */
  lemma PrimaryDefinitionOfRow(row: Row, i: nat)
    requires NormalizeRow(row).Some?
    requires i < 3 && RowDefinitionSlots(row)[i] != ""
    requires forall j :: 0 <= j < i ==> RowDefinitionSlots(row)[j] == ""
    ensures PrimaryDefinition(NormalizeRow(row).value.definitions_en) == RowDefinitionSlots(row)[i]
  {
    FilterHead(RowDefinitionSlots(row), IsNonEmpty, i);
  }

  /** The front of a loaded word is blank exactly when the word has no definition. */
  lemma PrimaryDefinitionBlank(w: Word)
    requires Canonical(w)
    ensures PrimaryDefinition(w.definitions_en) == "" <==> w.definitions_en == []
  {
    if w.definitions_en != [] {
      assert w.definitions_en[0] in w.definitions_en;
    }
  }

  // --------------------------------------------------------------- back id

  const BackPrefix: string := "word-card-back-"

  /** The characters kept by `replace(/[^a-z0-9-]/g, '')`. */
  predicate IsSlugChar(c: char) {
    'a' <= c <= 'z' || '0' <= c <= '9' || c == '-'
  }

  /** `replace(/\s+/g, '-')`: every maximal run of white space becomes one dash. */
  function DashSpaces(s: string): (r: string)
    ensures forall c :: c in r ==> !IsSpace(c)
    ensures |r| <= |s|
    decreases |s|
  {
    if s == [] then []
    else if IsSpace(s[0]) then ['-'] + DashSpaces(TrimStart(s[1..]))
    else [s[0]] + DashSpaces(s[1..])
  }

  /** The slug of a term: lower-cased, white-space runs dashed, everything outside `[a-z0-9-]` dropped. */
  function Slug(term: string): (r: string)
    ensures forall c :: c in r ==> IsSlugChar(c)
  {
    Filter(DashSpaces(Lower(term)), IsSlugChar)
  }

  /** `backId`: from a truthy `id`; otherwise from a string term's slug, `term` when that is empty; otherwise `term`. */
  function BackId(id: Option<string>, term: Option<string>): (r: string)
    ensures BackPrefix <= r
    ensures id.Some? && id.value != "" ==> r == BackPrefix + id.value
    ensures (id.None? || id.value == "") && term.Some? && Slug(term.value) != "" ==> r == BackPrefix + Slug(term.value)
    ensures (id.None? || id.value == "") && (term.None? || Slug(term.value) == "") ==> r == BackPrefix + "term"
  {
    if id.Some? && id.value != "" then BackPrefix + id.value
    else match term
      case Some(t) =>
        var safeTerm := Slug(t);
        BackPrefix + (if safeTerm != "" then safeTerm else "term")
      case None => BackPrefix + "term"
  }

  /** A string without white space is left alone by the dashing step. */
  lemma {:induction false} DashSpacesNoSpace(s: string)
    requires forall c :: c in s ==> !IsSpace(c)
    ensures DashSpaces(s) == s
  {
    if s != [] {
      assert forall c :: c in s[1..] ==> c in s;
      DashSpacesNoSpace(s[1..]);
    }
  }

  /** Slug characters are unchanged by lower-casing and are not white space. */
  lemma SlugCharsFixed(s: string)
    requires forall c :: c in s ==> IsSlugChar(c)
    ensures Lower(s) == s
    ensures forall c :: c in s ==> !IsSpace(c)
  {
    forall k | 0 <= k < |s| ensures Lower(s)[k] == s[k] {
      assert IsSlugChar(s[k]);
    }
  }

  /** A term made of slug characters is its own slug. */
  lemma SlugOfSlugChars(term: string)
    requires forall c :: c in term ==> IsSlugChar(c)
    ensures Slug(term) == term
  {
    SlugCharsFixed(term);
    DashSpacesNoSpace(term);
    FilterAll(term, IsSlugChar);
  }

  /** A slug is its own slug, so the back id of a slug-only term is stable. */
  lemma SlugIdempotent(term: string)
    ensures Slug(Slug(term)) == Slug(term)
  {
    SlugOfSlugChars(Slug(term));
  }

  /** A stretch without white space passes through the dashing step unchanged. */
  lemma {:induction false} DashSpacesWord(word: string, rest: string)
    requires forall k :: 0 <= k < |word| ==> !IsSpace(word[k])
    ensures DashSpaces(word + rest) == word + DashSpaces(rest)
  {
    if word == [] {
      assert word + rest == rest;
    } else {
      var t, tail := word + rest, word[1..];
      assert t[0] == word[0] && t[1..] == tail + rest;
      DashSpacesWord(tail, rest);
      calc {
        DashSpaces(t);
        [word[0]] + DashSpaces(tail + rest);
        [word[0]] + (tail + DashSpaces(rest));
        ([word[0]] + tail) + DashSpaces(rest);
        { assert [word[0]] + tail == word; }
        word + DashSpaces(rest);
      }
    }
  }

  /** A maximal run of white space, however long, becomes a single dash. */
  lemma DashSpacesRun(run: string, rest: string)
    requires run != [] && forall k :: 0 <= k < |run| ==> IsSpace(run[k])
    requires rest == [] || !IsSpace(rest[0])
    ensures DashSpaces(run + rest) == "-" + DashSpaces(rest)
  {
    assert (run + rest)[0] == run[0];
    assert (run + rest)[1..] == run[1..] + rest;
    TrimStartSpaces(run[1..], rest);
  }

  /** A character that is neither white space nor a dash. */
  predicate IsWordChar(c: char) {
    !IsSpace(c) && c != '-'
  }

  /** Leading white space carries no word characters. */
  lemma TrimStartKeepsText(t: string)
    ensures Filter(TrimStart(t), IsWordChar) == Filter(t, IsWordChar)
  {
    var u := TrimStart(t);
    TrimStartCuts(t);
    var cut := t[..|t| - |u|];
    assert t == cut + u;
    FilterAppend(cut, u, IsWordChar);
    FilterNone(cut, IsWordChar);
  }

  /** Dashing only replaces white space: the other characters, dashes aside, stay in order. */
  lemma {:induction false} DashSpacesKeepsText(s: string)
    ensures Filter(DashSpaces(s), IsWordChar) == Filter(s, IsWordChar)
    decreases |s|
  {
    if s != [] {
      var head, tail := [s[0]], s[1..];
      assert s == head + tail;
      FilterAppend(head, tail, IsWordChar);
      if IsSpace(s[0]) {
        var u := TrimStart(tail);
        DashSpacesKeepsText(u);
        TrimStartKeepsText(tail);
        FilterAppend("-", DashSpaces(u), IsWordChar);
        FilterNone("-", IsWordChar);
        FilterNone(head, IsWordChar);
        calc {
          Filter(DashSpaces(s), IsWordChar);
          Filter("-" + DashSpaces(u), IsWordChar);
          Filter(DashSpaces(u), IsWordChar);
          Filter(tail, IsWordChar);
          Filter(s, IsWordChar);
        }
      } else {
        DashSpacesKeepsText(tail);
        FilterAppend(head, DashSpaces(tail), IsWordChar);
      }
    }
  }

  /** Letters are folded: a term and its lower-cased form have the same slug. */
  lemma SlugIgnoresCase(term: string)
    ensures Slug(Lower(term)) == Slug(term)
  {
    LowerIdempotent(term);
  }

  // ------------------------------------------------------------ flip state

  /** The two flags of the card. */
  datatype Flip = Flip(isFlipped: bool, hasFlipped: bool)

  /** `toggleFlip`: the face turns over, and turning to the back records that the back has been shown. */
  function Toggled(f: Flip): (r: Flip)
    ensures r.isFlipped != f.isFlipped
    ensures r.hasFlipped <==> f.hasFlipped || r.isFlipped
  {
    var next := !f.isFlipped;
    Flip(next, if next && !f.hasFlipped then true else f.hasFlipped)
  }

  /** `n` toggles in a row. */
  function Toggles(f: Flip, n: nat): Flip {
    if n == 0 then f else Toggled(Toggles(f, n - 1))
  }

  /** The card shows its back only after the back has been rendered. */
  predicate Consistent(f: Flip) {
    f.isFlipped ==> f.hasFlipped
  }

  /** Each toggle turns the face over, keeps the flags consistent and never forgets that the back was shown. */
  lemma ToggledSpec(f: Flip)
    ensures Toggled(f).isFlipped == !f.isFlipped
    ensures f.hasFlipped ==> Toggled(f).hasFlipped
    ensures Toggled(f).hasFlipped <==> f.hasFlipped || !f.isFlipped
    ensures Consistent(Toggled(f))
  {
  }

  /** After `n` toggles the face has turned `n` times; from two toggles on, the back has been shown. */
  lemma {:induction false} TogglesSpec(f: Flip, n: nat)
    ensures Toggles(f, n).isFlipped == (f.isFlipped != (n % 2 == 1))
    ensures f.hasFlipped ==> Toggles(f, n).hasFlipped
    ensures n >= 2 ==> Toggles(f, n).hasFlipped
    ensures Consistent(f) ==> Consistent(Toggles(f, n))
  {
    if n > 0 {
      TogglesSpec(f, n - 1);
      ToggledSpec(Toggles(f, n - 1));
    }
  }

  /** Toggling twice shows the same face again. */
  lemma ToggleTwice(f: Flip)
    ensures Toggled(Toggled(f)).isFlipped == f.isFlipped
    ensures Toggled(Toggled(f)).hasFlipped
  {
    ToggledSpec(f);
    ToggledSpec(Toggled(f));
  }

  /** Only Enter and Space activate the card. */
  predicate IsActivationKey(key: string) {
    key == "Enter" || key == " "
  }

  /** One mounted card. */
  class FlipCard {
    const backId: string
    var isFlipped: bool
    var hasFlipped: bool

    /** `useState(false)` for both flags. */
    constructor(id: Option<string>, term: Option<string>)
      ensures backId == BackId(id, term)
      ensures !isFlipped && !hasFlipped
    {
      backId := BackId(id, term);
      isFlipped := false;
      hasFlipped := false;
    }

    function State(): Flip
      reads this
    {
      Flip(isFlipped, hasFlipped)
    }

    /** A click. */
    method ToggleFlip()
      modifies this
      ensures State() == Toggled(old(State()))
      ensures isFlipped == !old(isFlipped)
      ensures old(hasFlipped) ==> hasFlipped
      ensures Consistent(State())
    {
      var next := !isFlipped;
      if next && !hasFlipped {
        hasFlipped := true;
      }
      isFlipped := next;
    }

    /** A key press: Enter or Space is taken over from the browser and toggles; any other key changes nothing. */
    method HandleKeyDown(key: string) returns (preventDefault: bool)
      modifies this
      ensures preventDefault <==> IsActivationKey(key)
      ensures preventDefault ==> State() == Toggled(old(State()))
      ensures !preventDefault ==> State() == old(State())
    {
      preventDefault := false;
      if key == "Enter" || key == " " {
        preventDefault := true;
        ToggleFlip();
      }
    }

    /** `aria-controls`: the back face's id once the back has been rendered. */
    function AriaControls(): (r: Option<string>)
      reads this
      ensures r.Some? <==> hasFlipped
      ensures r.Some? ==> r.value == backId
    {
      if hasFlipped then Some(backId) else None
    }

    /** Whether the back face is in the document. */
    function BackFaceRendered(): (r: bool)
      reads this
      ensures r <==> AriaControls().Some?
    {
      hasFlipped
    }
  }
}
