/** How the message handler turns a chat message into the arguments of
    `createRetroGif` (index.js:305-314): the content must start with `!retro`
    in any letter case; what follows, trimmed, is `rawArgs`; when the first
    `\s`-delimited word of `rawArgs`, lower-cased, names a registered theme it
    selects that theme and is removed from the text, otherwise the theme is
    `green` and the text is `rawArgs` unchanged; an empty text is replaced by a
    fixed greeting. */
module CommandParsing {
  import opened Wrappers
  import opened Strings
  import opened Themes

  const Prefix: string := "!retro"
  const DefaultThemeKey: string := "green"
  const DefaultText: string := "Hello from RetroBot! \nMade by cyber"

  /** The arguments handed to `createRetroGif(finalText, themeKey)`. */
  datatype Request = Request(text: string, themeKey: string)

  /** `content.toLowerCase().startsWith('!retro')`. */
  predicate IsRetroCommand(content: string) {
    StartsWith(ToLower(content), Prefix)
  }

  /** `content.slice('!retro'.length).trim()`. */
  function RawArgs(content: string): (r: string)
    requires IsRetroCommand(content)
    ensures IsTrimmed(r)
  {
    Trim(content[|Prefix|..])
  }

  /** The theme word: the first word of `rawArgs`, lower-cased, when it names a
      registered theme (`firstWord && THEMES[firstWord]`). */
  function ThemeWord(rawArgs: string): (r: Option<string>)
    ensures r.Some? ==> r.value in Registry()
    ensures r.Some? ==> |r.value| == |FirstWord(rawArgs)| > 0
  {
    var firstWord := ToLower(FirstWord(rawArgs));
    if firstWord != "" && firstWord in Registry() then Some(firstWord) else None
  }

  /** The greeting is non-empty and has no white space at either end. */
  lemma DefaultTextIsTrimmed()
    ensures DefaultText != "" && IsTrimmed(DefaultText)
  {
    assert DefaultText[0] == 'H';
    assert DefaultText[|DefaultText| - 1] == 'r';
  }

  /** `text || 'Hello from RetroBot! \nMade by cyber'`, where `text` is the
      argument text after any theme word. */
  function FinalText(rawArgs: string, themeWord: Option<string>): (r: string)
    requires IsTrimmed(rawArgs)
    requires themeWord.Some? ==> |themeWord.value| <= |rawArgs|
    ensures r != "" && IsTrimmed(r)
  {
    var rest := if themeWord.Some? then rawArgs[|themeWord.value|..] else "";
    var text := if themeWord.Some? then Trim(rest) else rawArgs;
    DefaultTextIsTrimmed();
    if text != "" then text else DefaultText
  }

  /** The message handler's argument extraction; `None` when the message is not a
      `!retro` command (a missing content counts as empty). */
  function ParseCommand(content: Option<string>): (r: Option<Request>)
    ensures r.Some? <==> IsRetroCommand(content.GetOr(""))
    ensures r.Some? ==> r.value.themeKey in Registry()
    ensures r.Some? ==> r.value.text != "" && IsTrimmed(r.value.text)
  {
    var c := content.GetOr("");
    if !IsRetroCommand(c) then None
    else
      var rawArgs := RawArgs(c);
      var themeWord := ThemeWord(rawArgs);
      var themeKey := if themeWord.Some? then themeWord.value else DefaultThemeKey;
      Some(Request(FinalText(rawArgs, themeWord), themeKey))
  }

  // ---------------------------------------------------------------------------
  // Properties

  /** Without a theme word the theme is `green` and the text is `rawArgs` unchanged
      (or the greeting when there are no arguments at all). */
  lemma ParseWithoutThemeWord(content: string)
    requires IsRetroCommand(content) && ThemeWord(RawArgs(content)).None?
    ensures ParseCommand(Some(content)) ==
      Some(Request(if RawArgs(content) != "" then RawArgs(content) else DefaultText, DefaultThemeKey))
  {
  }

  /** The prefix test ignores letter case and nothing else: a message is a command
      exactly when its first six characters lower-case to `!retro`, whatever follows. */
  lemma RetroPrefixAnyCase(content: string)
    ensures IsRetroCommand(content) <==>
      |content| >= |Prefix| && forall i :: 0 <= i < |Prefix| ==> LowerChar(content[i]) == Prefix[i]
  {
    if |content| >= |Prefix| {
      ToLowerPrefix(content, |Prefix|);
      if IsRetroCommand(content) {
        forall i | 0 <= i < |Prefix| ensures LowerChar(content[i]) == Prefix[i] {
          assert ToLower(content)[..|Prefix|][i] == Prefix[i];
        }
      }
    }
  }

  /** The trimmed arguments of `<prefix> <msg>` are `msg`. */
  lemma RawArgsOfUnthemedCommand(prefix: string, msg: string)
    requires |prefix| == |Prefix| && ToLower(prefix) == Prefix
    requires IsTrimmed(msg)
    ensures IsRetroCommand(prefix + " " + msg)
    ensures RawArgs(prefix + " " + msg) == msg
  {
    var content := prefix + " " + msg;
    ToLowerPrefix(content, |Prefix|);
    assert content[..|Prefix|] == prefix;
    assert content[|Prefix|..] == " " + msg + [];
    TrimSurrounded(" ", msg, []);
  }

  /** Without a theme word the theme is `green` and the whole trimmed message is the
      text: `!retro <msg>`, when the first word of `msg` names no theme in any letter
      case, asks for `msg` (or the greeting when `msg` is empty) in the green theme. */
  lemma ParseUnthemedCommand(prefix: string, msg: string)
    requires |prefix| == |Prefix| && ToLower(prefix) == Prefix
    requires IsTrimmed(msg)
    requires ToLower(FirstWord(msg)) !in Registry()
    ensures ParseCommand(Some(prefix + " " + msg)) ==
      Some(Request(if msg != "" then msg else DefaultText, DefaultThemeKey))
  {
    var content := prefix + " " + msg;
    RawArgsOfUnthemedCommand(prefix, msg);
    ParseWithoutThemeWord(content);
  }

  /** A registered key resolves to its own preset, and the handler's default key does
      not resolve to the preset that `createRetroGif` falls back to. */
  lemma RegisteredKeyResolves(key: string)
    requires key in Registry()
    ensures ResolveTheme(key) == Registry()[key]
    ensures ResolveTheme(DefaultThemeKey) != ResolveTheme("")
  {
  }

  /** The key the handler passes is always registered, so `createRetroGif`'s fallback
      to black is never taken on this path; and the handler's own default (green) is
      not the theme that fallback would give. */
  lemma HandlerNeverUsesBlackFallback(content: Option<string>, req: Request)
    requires ParseCommand(content) == Some(req)
    ensures ResolveTheme(req.themeKey) == Registry()[req.themeKey]
    ensures ResolveTheme(DefaultThemeKey) != ResolveTheme("")
  {
    RegisteredKeyResolves(req.themeKey);
  }

  /** The first word of a word followed by white space is that word. */
  lemma FirstWordOf(word: string, rest: string)
    requires forall k :: 0 <= k < |word| ==> !IsSpace(word[k])
    requires rest == [] || IsSpace(rest[0])
    ensures FirstWord(word + rest) == word
  {
    var s := word + rest;
    var r := FirstWord(s);
    assert r == s[..|word|] == word;
  }

  /** Lower-casing acts character by character, so it commutes with taking a prefix. */
  lemma ToLowerPrefix(s: string, n: nat)
    requires n <= |s|
    ensures ToLower(s)[..n] == ToLower(s[..n])
  {
  }

  /** A word whose lower case is a registered key holds no white space. */
  lemma ThemeWordHasNoSpace(word: string)
    requires ToLower(word) in Registry()
    ensures |word| > 0
    ensures forall k :: 0 <= k < |word| ==> !IsSpace(word[k])
  {
    var key := ToLower(word);
    RegistryKeysAreLowerWords(key);
    forall k | 0 <= k < |word| ensures !IsSpace(word[k]) {
      assert key[k] == LowerChar(word[k]);
    }
  }

  /** The trimmed arguments of `<prefix> <word> <msg>` are `<word> <msg>`, or `<word>`
      when `msg` is empty. */
  lemma RawArgsOfThemedCommand(prefix: string, word: string, msg: string)
    requires |prefix| == |Prefix| && ToLower(prefix) == Prefix
    requires |word| > 0 && forall k :: 0 <= k < |word| ==> !IsSpace(word[k])
    requires IsTrimmed(msg)
    ensures IsRetroCommand(prefix + " " + word + " " + msg)
    ensures RawArgs(prefix + " " + word + " " + msg) == if msg == [] then word else word + " " + msg
  {
    var content := prefix + " " + word + " " + msg;
    ToLowerPrefix(content, |Prefix|);
    assert content[..|Prefix|] == prefix;
    var body := word + " " + msg;
    assert content[|Prefix|..] == " " + body;
    if msg == [] {
      assert " " + body == " " + word + " ";
      TrimSurrounded(" ", word, " ");
    } else {
      assert " " + body == " " + body + [];
      TrimSurrounded(" ", body, []);
    }
  }

  /** With a theme word the key is that word, lower-cased, and the text is what follows
      it, trimmed, or the greeting when nothing follows. */
  lemma ParseWithThemeWord(content: string)
    requires IsRetroCommand(content) && ThemeWord(RawArgs(content)).Some?
    ensures var rawArgs := RawArgs(content);
      var key := ThemeWord(rawArgs).value;
      var text := Trim(rawArgs[|key|..]);
      ParseCommand(Some(content)) == Some(Request(if text != "" then text else DefaultText, key))
  {
  }

  /** In the arguments `<word> <msg>` (or `<word>` alone), a word naming a theme is the
      theme word, and what follows it trims to `msg`. */
  lemma ThemedArgs(word: string, msg: string)
    requires ToLower(word) in Registry()
    requires IsTrimmed(msg)
    ensures var rawArgs := if msg == [] then word else word + " " + msg;
      ThemeWord(rawArgs) == Some(ToLower(word)) && Trim(rawArgs[|word|..]) == msg
  {
    ThemeWordHasNoSpace(word);
    var rawArgs := if msg == [] then word else word + " " + msg;
    if msg == [] {
      FirstWordOf(word, []);
      assert word + [] == word;
      assert rawArgs[|word|..] == [];
    } else {
      FirstWordOf(word, " " + msg);
      assert rawArgs == word + (" " + msg);
      assert rawArgs[|word|..] == " " + msg;
      TrimSurrounded(" ", msg, []);
      assert " " + msg + [] == " " + msg;
    }
  }

  /** A theme word, in any letter case, after the prefix selects its theme and is
      removed from the text: `!retro <word> <msg>` asks for `msg` (or the greeting
      when `msg` is empty) in the theme the lower-cased `word` names. */
  lemma ParseThemedCommand(prefix: string, word: string, msg: string)
    requires |prefix| == |Prefix| && ToLower(prefix) == Prefix
    requires ToLower(word) in Registry()
    requires IsTrimmed(msg)
    ensures ParseCommand(Some(prefix + " " + word + " " + msg)) ==
      Some(Request(if msg != "" then msg else DefaultText, ToLower(word)))
  {
    var content := prefix + " " + word + " " + msg;
    ThemeWordHasNoSpace(word);
    RawArgsOfThemedCommand(prefix, word, msg);
    ThemedArgs(word, msg);
    ParseWithThemeWord(content);
  }
}
