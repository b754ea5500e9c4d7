/**
 * The closed vocabularies of the site (types.ts): the content views, the
 * colour themes, and the static theme table with each theme's label,
 * emblem, accent colour and text colour.
 */
module Types {
  import opened Wrappers

  /** The five content panels of the main area. */
  datatype View = ViewDetails | ViewComparison | ViewGallery | ViewEventFilm | ViewPrinting

  /** The four colour themes. */
  datatype Theme = ThemeDefault | ThemeBright | ThemeRomantic | ThemeClassic

  /** What the theme table records for a theme. */
  datatype ThemeInfo = ThemeInfo(name: string, emoji: string, accent: string, text: string)

  /** Every view, each once. */
  const AllViews: seq<View> := [ViewDetails, ViewComparison, ViewGallery, ViewEventFilm, ViewPrinting]

  /** Every theme, each once. */
  const AllThemes: seq<Theme> := [ThemeDefault, ThemeBright, ThemeRomantic, ThemeClassic]

  /** The string literal of each view in the source's union type. */
  function ViewName(v: View): string {
    match v
    case ViewDetails => "view-details"
    case ViewComparison => "view-comparison"
    case ViewGallery => "view-gallery"
    case ViewEventFilm => "view-event-film"
    case ViewPrinting => "view-printing"
  }

  /** The string literal of each theme in the source's union type. */
  function ThemeName(t: Theme): string {
    match t
    case ThemeDefault => "theme-default"
    case ThemeBright => "theme-bright"
    case ThemeRomantic => "theme-romantic"
    case ThemeClassic => "theme-classic"
  }

  /** The view a string literal names, if any. */
  function ParseView(s: string): Option<View> {
    if s == "view-details" then Some(ViewDetails)
    else if s == "view-comparison" then Some(ViewComparison)
    else if s == "view-gallery" then Some(ViewGallery)
    else if s == "view-event-film" then Some(ViewEventFilm)
    else if s == "view-printing" then Some(ViewPrinting)
    else None
  }

  /** The theme a string literal names, if any. */
  function ParseTheme(s: string): Option<Theme> {
    if s == "theme-default" then Some(ThemeDefault)
    else if s == "theme-bright" then Some(ThemeBright)
    else if s == "theme-romantic" then Some(ThemeRomantic)
    else if s == "theme-classic" then Some(ThemeClassic)
    else None
  }

  /**
   * The `themes` record. Its type is a record keyed by the whole theme
   * union, so it has an entry for every theme: here, a function defined on
   * every theme.
   */
  function Themes(t: Theme): ThemeInfo {
    match t
    case ThemeDefault => ThemeInfo("Sang Tr\U{1ECD}ng", "\U{1F451}", "#B8860B", "#1F2937")
    case ThemeBright => ThemeInfo("T\U{01B0}\U{01A1}i S\U{00E1}ng", "\U{2600}\U{FE0F}", "#008080", "#111827")
    case ThemeRomantic => ThemeInfo("L\U{00E3}ng M\U{1EA1}n", "\U{1F496}", "#800020", "#4B0000")
    case ThemeClassic => ThemeInfo("C\U{1ED5} \U{0110}i\U{1EC3}n", "\U{1F4D8}", "#003366", "#1F2937")
  }

  /**
   * The view union has exactly five members: the list of views holds each
   * view exactly once, and every view appears in it.
   */
  lemma ExactlyFiveViews(v: View)
    ensures |AllViews| == 5 && v in AllViews
    ensures forall i, j | 0 <= i < j < |AllViews| :: AllViews[i] != AllViews[j]
  {
  }

  /** The theme union has exactly four members. */
  lemma ExactlyFourThemes(t: Theme)
    ensures |AllThemes| == 4 && t in AllThemes
    ensures forall i, j | 0 <= i < j < |AllThemes| :: AllThemes[i] != AllThemes[j]
  {
  }

  /** The literal of a view reads back as that view, and only its literal does. */
  lemma ViewNameRoundTrip(v: View, s: string)
    ensures ParseView(ViewName(v)) == Some(v)
    ensures ParseView(s) == Some(v) <==> s == ViewName(v)
  {
  }

  /** The literal of a theme reads back as that theme, and only its literal does. */
  lemma ThemeNameRoundTrip(t: Theme, s: string)
    ensures ParseTheme(ThemeName(t)) == Some(t)
    ensures ParseTheme(s) == Some(t) <==> s == ThemeName(t)
  {
  }
}
