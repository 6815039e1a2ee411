/**
 * The part-of-speech pills (src/components/FilterPills.jsx): one toggle
 * button per option, the active one marked, and a click that selects an
 * option or, on the active one, clears the selection.
 */
module FilterPills {
  import opened Wrappers
  import opened JsString
  import DataLoader
  import CategoryPage

  /** One button: its caption and whether it is pressed. */
  datatype Pill = Pill(caption: string, active: bool)

  /** `value === option`: the active test is exact, case included. */
  predicate IsActive(value: string, option: string) {
    value == option
  }

  /** What is rendered: nothing without options, else one pill per option in order. */
  function Render(options: seq<string>, value: string): (r: Option<seq<Pill>>)
    ensures r.None? <==> options == []
    ensures r.Some? ==> |r.value| == |options|
    ensures r.Some? ==> forall i :: 0 <= i < |options| ==>
              r.value[i].caption == options[i] && (r.value[i].active <==> options[i] == value)
  {
    if |options| == 0 then None
    else Some(seq(|options|, i requires 0 <= i < |options| => Pill(options[i], IsActive(value, options[i]))))
  }

  /**
   * `handleSelect(option)`: the value passed to `onChange`, `None` when there is no
   * `onChange` to call. The active option is cleared to `''`; any other becomes the value.
   */
  function HandleSelect(value: string, option: string, hasOnChange: bool): (emitted: Option<string>)
    ensures !hasOnChange ==> emitted.None?
    ensures hasOnChange ==> emitted.Some? && (emitted.value == "" || emitted.value == option)
    ensures hasOnChange && value == option ==> emitted == Some("")
    ensures hasOnChange && value != option ==> emitted == Some(option)
  {
    if !hasOnChange then None
    else if value == option then Some("")
    else Some(option)
  }

  /** With distinct options, at most one pill is active, and one is exactly when the value is an option. */
  lemma ActivePillUnique(options: seq<string>, value: string)
    requires options != []
    requires forall i, j :: 0 <= i < j < |options| ==> options[i] != options[j]
    ensures var pills := Render(options, value).value;
            && (forall i, j :: 0 <= i < j < |pills| ==> !(pills[i].active && pills[j].active))
            && ((exists i :: 0 <= i < |pills| && pills[i].active) <==> value in options)
  {
    var pills := Render(options, value).value;
    if value in options {
      var i :| 0 <= i < |options| && options[i] == value;
      assert pills[i].active;
    }
  }

  /** A click on a non-empty option selects it unless it was the value, and a second click undoes the first. */
  lemma SelectToggles(value: string, option: string)
    requires option != ""
    ensures var once := HandleSelect(value, option, true).value;
            var twice := HandleSelect(once, option, true).value;
            && (once == option <==> value != option)
            && (value == option ==> once == "" && twice == option)
            && (value != option ==> once == option && twice == "")
  {
  }

  /** The facet options never hold two values that differ only in case, so as the page builds them at most one pill is active. */
  lemma PageOptionsActivePill(words: seq<DataLoader.Word>, value: string)
    requires CategoryPage.PosOptionsOf(words) != []
    ensures var pills := Render(CategoryPage.PosOptionsOf(words), value).value;
            forall i, j :: 0 <= i < j < |pills| ==> !(pills[i].active && pills[j].active)
  {
    var options := CategoryPage.PosOptionsOf(words);
    CategoryPage.PosOptionsDistinct(words);
    assert forall i, j :: 0 <= i < j < |options| ==> options[i] != options[j] by {
      forall i, j | 0 <= i < j < |options| ensures options[i] != options[j] {
        assert Lower(options[i]) != Lower(options[j]);
      }
    }
    ActivePillUnique(options, value);
  }

  /**
   * The pills match case-sensitively while the page filters and keeps the facet
   * case-insensitively: with the option `Verb` and the facet `verb`, the facet
   * survives the reset and still filters, yet no pill shows as pressed.
   */
  lemma CaseMismatch()
    ensures Render(["Verb"], "verb") == Some([Pill("Verb", false)])
    ensures CategoryPage.FacetAfterReset("verb", ["Verb"]) == "verb"
  {
    assert "Verb"[0] != "verb"[0];
    var pills := Render(["Verb"], "verb").value;
    assert pills[0] == Pill("Verb", false);
    assert pills == [Pill("Verb", false)];
    assert Lower("Verb") == "verb";
    assert CategoryPage.HasKey(["Verb"], Lower("verb"));
  }

  /**
   * For any options: a facet that is not itself an option but survives the page's reset
   * matches some option only up to case, and no pill shows it as pressed.
   */
  lemma SurvivingFacetHasNoPill(options: seq<string>, facet: string)
    requires facet != "" && facet !in options
    requires CategoryPage.FacetAfterReset(facet, options) == facet
    ensures options != [] ==> exists o :: o in options && o != facet && Lower(o) == Lower(facet)
    ensures Render(options, facet).Some? ==> forall p :: p in Render(options, facet).value ==> !p.active
  {
    if options != [] {
      assert CategoryPage.HasKey(options, Lower(facet));
      var o :| o in options && Lower(o) == Lower(facet);
      assert o != facet;
    }
    if Render(options, facet).Some? {
      var pills := Render(options, facet).value;
      forall p | p in pills ensures !p.active {
        var i :| 0 <= i < |pills| && pills[i] == p;
        assert options[i] in options;
      }
    }
  }
}
