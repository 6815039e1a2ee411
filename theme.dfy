/**
 * The colour theme (src/utils/theme.js). The browser is never touched
 * here: each read of `localStorage`, `matchMedia` or the `data-theme`
 * attribute is a parameter, and each write is a result or a field update.
 */
module Theme {
  import opened Wrappers

  /** One read from the browser: impossible outside a browser, thrown, or a value. */
  datatype Read<T> = Unavailable | Threw | Value(value: T)

  const StorageKey: string := "industrial-lexicon-theme"
  const Dark: string := "dark"
  const Light: string := "light"

  predicate IsTheme(t: string) {
    t == Dark || t == Light
  }

  /** `getStoredTheme`: the stored item when it is exactly a theme name; nothing otherwise, on error, or outside a browser. */
  function GetStoredTheme(stored: Read<Option<string>>): (r: Option<string>)
    ensures r.Some? ==> IsTheme(r.value)
    ensures r.Some? <==> stored.Value? && stored.value.Some? && IsTheme(stored.value.value)
    ensures r.Some? ==> r.value == stored.value.value
  {
    match stored
    case Value(Some(v)) => if v == Dark || v == Light then Some(v) else None
    case _ => None
  }

  /** `getSystemTheme`: dark exactly when the dark-scheme media query matches. */
  function GetSystemTheme(prefersDark: Read<bool>): (r: string)
    ensures IsTheme(r)
    ensures r == Dark <==> prefersDark == Value(true)
  {
    match prefersDark
    case Value(true) => Dark
    case _ => Light
  }

  /** The value `applyTheme` writes: dark only for dark. */
  function Normalized(theme: string): (r: string)
    ensures IsTheme(r)
    ensures r == Dark <==> theme == Dark
    ensures IsTheme(theme) ==> r == theme
  {
    if theme == Dark then Dark else Light
  }

  /** `applyTheme`: the attribute written, if there is a document to write it to. */
  function ApplyTheme(theme: string, hasDocument: bool): (written: Option<string>)
    ensures written.Some? <==> hasDocument
    ensures written.Some? ==> written.value == Normalized(theme)
  {
    if !hasDocument then None else Some(Normalized(theme))
  }

  /** `getPreferredTheme`: the stored theme, else the system theme. */
  function GetPreferredTheme(stored: Read<Option<string>>, prefersDark: Read<bool>): (r: string)
    ensures IsTheme(r)
    ensures GetStoredTheme(stored).Some? ==> r == GetStoredTheme(stored).value
    ensures GetStoredTheme(stored).None? ==> r == GetSystemTheme(prefersDark)
  {
    match GetStoredTheme(stored)
    case Some(t) => t
    case None => GetSystemTheme(prefersDark)
  }

  /** `document.documentElement`'s `data-theme`, when there is a document. */
  datatype Document = NoDocument | Document(attribute: Option<string>)

  /** The attribute when it already names a theme. */
  function ExistingTheme(doc: Document): (r: Option<string>)
    ensures r.Some? <==> doc.Document? && doc.attribute.Some? && IsTheme(doc.attribute.value)
    ensures r.Some? ==> r.value == doc.attribute.value
  {
    match doc
    case Document(Some(a)) => if a == Dark || a == Light then Some(a) else None
    case _ => None
  }

  /**
   * `ensureInitialTheme`: the theme in force, and the attribute written to get there.
   * Without a document it is light and nothing is written; a valid attribute is kept
   * without writing; otherwise the preferred theme is applied.
   */
  function EnsureInitialTheme(doc: Document, stored: Read<Option<string>>, prefersDark: Read<bool>): (r: (string, Option<string>))
    ensures IsTheme(r.0)
    ensures doc.NoDocument? ==> r == (Light, None)
    ensures ExistingTheme(doc).Some? ==> r == (ExistingTheme(doc).value, None)
    ensures doc.Document? && ExistingTheme(doc).None? ==> r == (GetPreferredTheme(stored, prefersDark), Some(GetPreferredTheme(stored, prefersDark)))
    ensures r.1.Some? ==> r.1.value == r.0
  {
    if doc.NoDocument? then (Light, None)
    else match ExistingTheme(doc)
      case Some(current) => (current, None)
      case None =>
        var initial := GetPreferredTheme(stored, prefersDark);
        (initial, ApplyTheme(initial, true))
  }

  /** The `useTheme` state initialiser: a valid attribute, else the preferred theme (also without a document). */
  function InitialTheme(doc: Document, stored: Read<Option<string>>, prefersDark: Read<bool>): (r: string)
    ensures IsTheme(r)
    ensures ExistingTheme(doc).Some? ==> r == ExistingTheme(doc).value
    ensures ExistingTheme(doc).None? ==> r == GetPreferredTheme(stored, prefersDark)
  {
    match ExistingTheme(doc)
    case Some(t) => t
    case None => GetPreferredTheme(stored, prefersDark)
  }

  /** `toggleTheme`'s update: dark becomes light and anything else dark. */
  function Toggled(theme: string): (r: string)
    ensures IsTheme(r)
    ensures r != theme
    ensures theme == Dark <==> r == Light
  {
    if theme == Dark then Light else Dark
  }

  /** Toggling twice comes back to a valid theme. */
  lemma ToggleTwice(theme: string)
    requires IsTheme(theme)
    ensures Toggled(Toggled(theme)) == theme
  {
  }

  /** Where a page already initialised the document, the hook starts from the same theme that `ensureInitialTheme` reported. */
  lemma InitialAgreesWithEnsure(doc: Document, stored: Read<Option<string>>, prefersDark: Read<bool>)
    requires doc.Document?
    ensures InitialTheme(doc, stored, prefersDark) == EnsureInitialTheme(doc, stored, prefersDark).0
  {
  }

  /** After `ensureInitialTheme` writes its theme, reading the document again gives that theme back, and nothing more is written. */
  lemma EnsureInitialThemeSettles(doc: Document, stored: Read<Option<string>>, prefersDark: Read<bool>)
    requires doc.Document?
    ensures var (theme, written) := EnsureInitialTheme(doc, stored, prefersDark);
            var after := if written.Some? then Document(written) else doc;
            EnsureInitialTheme(after, stored, prefersDark) == (theme, None)
  {
  }

  /** What the hook persists is what the next page load reads back as its preferred theme. */
  lemma PersistedThemeReadBack(theme: string, prefersDark: Read<bool>)
    requires IsTheme(theme)
    ensures GetStoredTheme(Value(Some(theme))) == Some(theme)
    ensures GetPreferredTheme(Value(Some(theme)), prefersDark) == theme
  {
  }

  /** The `useTheme` hook: its state, and the attribute and stored item its effect writes. */
  class ThemeHook {
    var theme: string
    var attribute: Option<string>
    var storedItem: Option<string>

    /** Mounting: the state comes from the initialiser; the document and storage hold what they held. */
    constructor(doc: Document, stored: Read<Option<string>>, prefersDark: Read<bool>)
      ensures theme == InitialTheme(doc, stored, prefersDark)
      ensures IsTheme(theme)
      ensures attribute == (if doc.Document? then doc.attribute else None)
      ensures storedItem == (if stored.Value? then stored.value else None)
    {
      theme := InitialTheme(doc, stored, prefersDark);
      attribute := if doc.Document? then doc.attribute else None;
      storedItem := if stored.Value? then stored.value else None;
    }

    /** The effect run after each change of `theme`: `applyTheme` then `persistTheme`, each only where it can write. */
    method SyncEffect(hasDocument: bool, storageWritable: bool)
      modifies this`attribute, this`storedItem
      ensures attribute == (if hasDocument then Some(Normalized(theme)) else old(attribute))
      ensures storedItem == (if storageWritable then Some(theme) else old(storedItem))
      ensures hasDocument && IsTheme(theme) ==> ExistingTheme(Document(attribute)) == Some(theme)
      ensures storageWritable && IsTheme(theme) ==> GetStoredTheme(Value(storedItem)) == Some(theme)
    {
      var written := ApplyTheme(theme, hasDocument);
      if written.Some? {
        attribute := written;
      }
      if storageWritable {
        storedItem := Some(theme);
      }
    }

    /** `toggleTheme`. */
    method ToggleTheme()
      modifies this`theme
      ensures theme == Toggled(old(theme))
      ensures IsTheme(theme)
    {
      theme := if theme == Dark then Light else Dark;
    }
  }
}
