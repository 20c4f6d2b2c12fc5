/** The dark/light theme: the startup choice, the text the choice is saved
    as, and the registries of moon and sun icons the theme keeps in step.
    An icon registry maps a button key to whether that icon is hidden. */
module Theme {

  import opened Wrappers
  import opened Strings

  /** Whether the moon and the sun icon of one theme button are hidden. */
  datatype IconPair = IconPair(moonHidden: bool, sunHidden: bool)

  /** The text `localStorage.setItem` stores for a boolean. */
  function BoolText(b: bool): (s: string)
    ensures s == "true" <==> b
  {
    if b then "true" else "false"
  }

  /** The startup theme: dark when the saved value is the text "true", or
      when nothing is saved and the system prefers dark. Only the exact text
      "true" selects dark; any other saved text selects light, and the
      system preference counts only when nothing is saved. */
  function InitialDark(saved: Option<string>, prefersDark: bool): (dark: bool)
    ensures saved.Some? ==> (dark <==> saved.value == "true")
    ensures saved.None? ==> dark == prefersDark
  {
    saved == Some("true") || (saved == None && prefersDark)
  }

  /** The registry key of the theme button at position `index` of the
      document at startup. */
  function ButtonKey(index: nat): (k: string)
    ensures |k| > 4 && k[..4] == "btn-" && k[4..] == NatToString(index)
  {
    "btn-" + NatToString(index)
  }

  /** The registry key of the theme button of an injected page header. */
  function HeaderKey(pageId: string): (k: string)
    ensures |k| >= 4 && k[..4] == "btn-" && k[4..] == pageId
  {
    "btn-" + pageId
  }

  /** Every icon of the registry is hidden exactly when `hidden`. */
  ghost predicate AllHidden(icons: map<string, bool>, hidden: bool)
  {
    forall k :: k in icons ==> icons[k] == hidden
  }

  /** `Map.prototype.forEach` adding or removing the `hidden` class on every
      registered icon. */
  method SetAll(icons: map<string, bool>, hidden: bool) returns (r: map<string, bool>)
    ensures r.Keys == icons.Keys
    ensures AllHidden(r, hidden)
  {
    r := icons;
    var todo := icons.Keys;
    while todo != {}
      invariant todo <= icons.Keys && r.Keys == icons.Keys
      invariant forall k :: k in r && k !in todo ==> r[k] == hidden
      decreases todo
    {
      var k :| k in todo;
      r := r[k := hidden];
      todo := todo - {k};
    }
  }

  /** Distinct button positions get distinct keys. */
  lemma ButtonKeyInjective(i: nat, j: nat)
    requires ButtonKey(i) == ButtonKey(j)
    ensures i == j
  {
    var ki, kj := ButtonKey(i), ButtonKey(j);
    assert ki[4..] == NatToString(i) && kj[4..] == NatToString(j);
    NatToStringInjective(i, j);
  }

  /** The registration loop over the theme buttons present at startup: the
      button at position `i` is registered under `btn-i` with its own icons. */
  method RegisterButtons(buttons: seq<IconPair>) returns (moon: map<string, bool>, sun: map<string, bool>)
    ensures moon.Keys == sun.Keys == (set i | 0 <= i < |buttons| :: ButtonKey(i))
    ensures forall i :: 0 <= i < |buttons| ==>
      moon[ButtonKey(i)] == buttons[i].moonHidden && sun[ButtonKey(i)] == buttons[i].sunHidden
  {
    moon, sun := map[], map[];
    for n := 0 to |buttons|
      invariant moon.Keys == sun.Keys == (set i | 0 <= i < n :: ButtonKey(i))
      invariant forall i :: 0 <= i < n ==>
        moon[ButtonKey(i)] == buttons[i].moonHidden && sun[ButtonKey(i)] == buttons[i].sunHidden
    {
      forall i | 0 <= i < n
        ensures ButtonKey(i) != ButtonKey(n)
      {
        if ButtonKey(i) == ButtonKey(n) {
          ButtonKeyInjective(i, n);
        }
      }
      moon := moon[ButtonKey(n) := buttons[n].moonHidden];
      sun := sun[ButtonKey(n) := buttons[n].sunHidden];
    }
  }

  // ----- Lemmas -----

  /** What is saved is what the next startup picks, whatever the system
      preference. */
  lemma SavedThemeIsRestored(dark: bool, prefersDark: bool)
    ensures InitialDark(Some(BoolText(dark)), prefersDark) == dark
  {
  }

  /** A startup key and a header key meet only when the page id is the
      decimal text of the button's position. */
  lemma KeysCollideOnlyOnDigits(index: nat, pageId: string)
    ensures ButtonKey(index) == HeaderKey(pageId) <==> pageId == NatToString(index)
  {
    if ButtonKey(index) == HeaderKey(pageId) {
      assert ButtonKey(index)[4..] == NatToString(index);
      assert HeaderKey(pageId)[4..] == pageId;
    }
  }
}
