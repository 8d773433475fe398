/** The label-text normaliser (`preprocessText`): brand and phrase removal,
    whitespace collapse, the "sample -" prefix and the alias table. */
module Normalizer {
  import opened Text

  /** The rule lists the normaliser applies. Alias entries are kept in the
      order the table lists them, which is the order they are tried in. */
  datatype Rules = Rules(brands: seq<string>, wordsToRemove: seq<string>, aliases: seq<(string, string)>)

  const Brands: seq<string> := [
    "Amouage", "BDK Parfums", "Boadicea", "Bond No.9", "Bvlgari",
    "Byredo", "Clive Christian", "Celine", "Creed", "D'Annam",
    "Diptyque", "Electimuss", "Ella K", "Ermenegildo Zegna", "Essential Parfums",
    "Ex Nihilo", "Fugazzi", "Fragrance Du Bois", "Frederic Malle", "Giardini Di Toscana",
    "Goldfield & Banks", "Guerlain", "Initio", "Jo Malone", "Jovoy", "Kajal", "Kayali",
    "Kilian", "Le Labo", "Lorenzo Pazzaglia", "Louis Vuitton", "Loumari", "Maison Crivelli",
    "Maison Francis Kurkdjian", "Maison Mataha", "Mancera", "Matiere Premiere", "Memo Paris",
    "Mes Bisous", "Mind Games", "M.Micallef", "Nasomatto", "Nishane", "Orto Parisi",
    "Parfums de marly", "Penhaligons", "Roja", "Room 1015", "Scents Of Wood", "Serge Lutens",
    "Simone Andreoli", "Sospiro", "Sora Dora", "Stephane Humbert Lucas", "The Harmonist",
    "Tom Ford", "Une Nuit Nomade", "Xerjoff", "YSL", "Zoologist", "Yves Saint Laurent"]

  const WordsToRemove: seq<string> := ["Le Vestiaire Des Parfums"]

  const AltNames: seq<(string, string)> := [
    ("baccarat rouge", "Baccarat Rouge 540"),
    ("ambre noir", "Ambre Noir")]

  /** The tables built into the normaliser. */
  function DefaultRules(): Rules {
    Rules(Brands, WordsToRemove, AltNames)
  }

  /** Applies whole-word removal for each word of `ws`, first to last. */
  function RemoveAll(s: string, ws: seq<string>): string {
    if ws == [] then s else RemoveWholeWord(RemoveAll(s, ws[..|ws| - 1]), ws[|ws| - 1])
  }

  /** The text once brands and phrases are removed, whitespace is collapsed,
      the "sample -" prefix is stripped and the ends are trimmed. */
  function Cleaned(text: string, rules: Rules): string {
    var stripped := RemoveAll(RemoveAll(text, rules.brands), rules.wordsToRemove);
    Trim(StripSamplePrefix(Collapse(stripped)))
  }

  /** The value of the first alias entry whose lower-cased key equals `lower`. */
  function LookupAlias(aliases: seq<(string, string)>, lower: string): (r: Option<string>)
    ensures r.Some? <==> exists i :: 0 <= i < |aliases| && Lower(aliases[i].0) == lower
    ensures r.Some? ==> exists i :: (0 <= i < |aliases| && Lower(aliases[i].0) == lower
      && aliases[i].1 == r.value && forall j :: 0 <= j < i ==> Lower(aliases[j].0) != lower)
  {
    if aliases == [] then None
    else if Lower(aliases[0].0) == lower then Some(aliases[0].1)
    else
      var r := LookupAlias(aliases[1..], lower);
      assert forall i :: 1 <= i < |aliases| ==> aliases[i] == aliases[1..][i - 1];
      r
  }

  /** `preprocessText`: "" for an empty input; otherwise the alias value when
      the cleaned text matches an alias key ignoring case, else the cleaned
      text. */
  function Preprocess(text: string, rules: Rules): string {
    if text == "" then ""
    else
      var c := Cleaned(text, rules);
      match LookupAlias(rules.aliases, Lower(c))
      case Some(v) => v
      case None => c
  }

  /** The normaliser as the source runs it: one loop per rule list, each
      reassigning the working string, then an early-return scan of the alias
      table. */
  method PreprocessText(text: string, rules: Rules) returns (r: string)
    ensures r == Preprocess(text, rules)
  {
    if text == "" {
      return "";
    }
    var result := text;
    for i := 0 to |rules.brands|
      invariant result == RemoveAll(text, rules.brands[..i])
    {
      assert rules.brands[..i + 1][..i] == rules.brands[..i];
      result := RemoveWholeWord(result, rules.brands[i]);
    }
    assert rules.brands[..|rules.brands|] == rules.brands;
    var afterBrands := result;
    for i := 0 to |rules.wordsToRemove|
      invariant result == RemoveAll(afterBrands, rules.wordsToRemove[..i])
    {
      assert rules.wordsToRemove[..i + 1][..i] == rules.wordsToRemove[..i];
      result := RemoveWholeWord(result, rules.wordsToRemove[i]);
    }
    assert rules.wordsToRemove[..|rules.wordsToRemove|] == rules.wordsToRemove;
    result := Trim(StripSamplePrefix(Collapse(result)));
    var lower := Lower(result);
    var aliases := rules.aliases;
    var i := 0;
    while i < |aliases|
      invariant 0 <= i <= |aliases|
      invariant LookupAlias(aliases, lower) == LookupAlias(aliases[i..], lower)
    {
      if Lower(aliases[i].0) == lower {
        return aliases[i].1;
      }
      assert aliases[i..][1..] == aliases[i + 1..];
      i := i + 1;
    }
    return result;
  }

  /** The cleaned text has no whitespace at either end and no two whitespace
      characters in a row. */
  lemma CleanedWellSpaced(text: string, rules: Rules)
    ensures WellSpaced(Cleaned(text, rules))
  {
    var c := Collapse(RemoveAll(RemoveAll(text, rules.brands), rules.wordsToRemove));
    var p := StripSamplePrefix(c);
    StripSampleSuffix(c);
    SliceNoDoubleSpace(c, |c| - |p|, |c|);
    TrimWellSpaced(p);
  }

  /** What `preprocessText` returns: "" for "", otherwise either an alias
      value taken verbatim from the table or a well-spaced cleaned text. */
  lemma PreprocessShape(text: string, rules: Rules)
    ensures text == "" ==> Preprocess(text, rules) == ""
    ensures text != "" && LookupAlias(rules.aliases, Lower(Cleaned(text, rules))).None? ==>
      Preprocess(text, rules) == Cleaned(text, rules) && WellSpaced(Preprocess(text, rules))
    ensures text != "" && LookupAlias(rules.aliases, Lower(Cleaned(text, rules))).Some? ==>
      exists i :: (0 <= i < |rules.aliases| && Preprocess(text, rules) == rules.aliases[i].1
        && Lower(rules.aliases[i].0) == Lower(Cleaned(text, rules)))
  {
    CleanedWellSpaced(text, rules);
  }

  lemma {:induction false} LowerOfLowercase(s: string)
    requires forall i :: 0 <= i < |s| ==> !('A' <= s[i] <= 'Z')
    ensures Lower(s) == s
  {
  }

  /** With the built-in table, any text that cleans to "baccarat rouge" in
      any letter case is printed as "Baccarat Rouge 540". */
  lemma BaccaratRougeAlias(text: string)
    requires text != "" && Lower(Cleaned(text, DefaultRules())) == "baccarat rouge"
    ensures Preprocess(text, DefaultRules()) == "Baccarat Rouge 540"
  {
    LowerOfLowercase("baccarat rouge");
  }

  /** So, by `Text.LowerOfCaseVariant`, does text that cleans to the name
      with any of its letters in capitals. */
  lemma BaccaratRougeAnyCase(text: string)
    requires text != "" && CaseVariant(Cleaned(text, DefaultRules()), "baccarat rouge")
    ensures Preprocess(text, DefaultRules()) == "Baccarat Rouge 540"
  {
    LowerOfCaseVariant(Cleaned(text, DefaultRules()), "baccarat rouge");
    BaccaratRougeAlias(text);
  }
}
