/** The fixed theme registry `THEMES` (index.js:34-38) and the lookup
    `THEMES[themeKey] || THEMES.black` that `createRetroGif` performs
    (index.js:234). */
module Themes {

  /** One preset (`label` is `displayLabel` here, `label` being a Dafny keyword): CSS colours and the bezel's shadow blur. */
  datatype Theme = Theme(displayLabel: string, bg: string, text: string, glow: string, scan: string, shadowBlur: nat)

  const Black := Theme("Black CRT", "#000000", "#00ff66", "#000000", "#000000", 32)
  const Green := Theme("Green CRT", "#0a2d0a", "#00ff66", "#00ff66", "#00ff66", 26)
  const Blue := Theme("Blue CRT", "#001122", "#00ff66", "#0066ff", "#0066ff", 24)

  /** The registry: exactly three own keys. */
  function Registry(): map<string, Theme> {
    map["black" := Black, "green" := Green, "blue" := Blue]
  }

  /** The theme `createRetroGif` draws with: the registered preset, or black for any
      key that is not registered. */
  function ResolveTheme(themeKey: string): (t: Theme)
    ensures t in Registry().Values
    ensures t == Black <==> (themeKey == "black" || themeKey !in Registry())
  {
    assert Registry()["black"] == Black;
    if themeKey in Registry() then Registry()[themeKey] else Black
  }

  /** Every registered key is a non-empty word of lower-case ASCII letters, so
      a message word can only select it through case mapping. */
  lemma RegistryKeysAreLowerWords(key: string)
    requires key in Registry()
    ensures |key| > 0
    ensures forall k :: 0 <= k < |key| ==> 'a' <= key[k] <= 'z'
  {
  }
}
