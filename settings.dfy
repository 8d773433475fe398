/** The settings editor: local copies of the brand list, the remove-word
    list and the alias dictionary, edited by add and remove handlers and
    reset from the incoming settings whenever the editor opens. */
module Settings {
  import opened Text

  // ---------------------------------------------------------------------
  // List edits
  // ---------------------------------------------------------------------

  /** `[...prev, input.trim()]` when the trimmed input is not empty, and
      the list unchanged otherwise. */
  function Appended(list: seq<string>, input: string): (r: seq<string>)
    ensures |list| <= |r| <= |list| + 1 && r[..|list|] == list
    ensures |r| == |list| + 1 <==> Trim(input) != ""
    ensures |r| == |list| + 1 ==> r[|list|] == Trim(input)
  {
    var t := Trim(input);
    if t != "" then
      assert (list + [t])[..|list|] == list;
      list + [t]
    else list
  }

  /** An added entry is non-empty and already trimmed. */
  lemma AppendedEntryTrimmed(list: seq<string>, input: string)
    requires Trim(input) != ""
    ensures var r := Appended(list, input); r[|list|] != "" && Trim(r[|list|]) == r[|list|]
  {
    TrimIdempotent(input);
  }

  /** `prev.filter((_, i) => i !== index)`. */
  function RemoveAt(list: seq<string>, index: int): (r: seq<string>)
    ensures |r| == if 0 <= index < |list| then |list| - 1 else |list|
  {
    if list == [] then []
    else
      var n := |list| - 1;
      RemoveAt(list[..n], index) + (if n == index then [] else [list[n]])
  }

  /** Removing by index drops exactly that position and keeps the rest in
      order; an index outside the list removes nothing. */
  lemma {:induction false} RemoveAtSpec(list: seq<string>, index: int)
    ensures 0 <= index < |list| ==> RemoveAt(list, index) == list[..index] + list[index + 1..]
    ensures !(0 <= index < |list|) ==> RemoveAt(list, index) == list
  {
    if list != [] {
      var n := |list| - 1;
      var init := list[..n];
      RemoveAtSpec(init, index);
      if n == index {
        assert list[..index] == init;
        assert list[index + 1..] == [];
      } else if 0 <= index < n {
        assert init[..index] == list[..index];
        assert init[index + 1..] + [list[n]] == list[index + 1..];
      } else {
        assert init + [list[n]] == list;
      }
    }
  }

  /** Removing the entry just added gives back the list. */
  lemma RemoveAppended(list: seq<string>, input: string)
    requires Trim(input) != ""
    ensures RemoveAt(Appended(list, input), |list|) == list
  {
    var r := Appended(list, input);
    RemoveAtSpec(r, |list|);
    assert r[|list| + 1..] == [];
  }

  // ---------------------------------------------------------------------
  // Alias dictionary edits
  // ---------------------------------------------------------------------

  /** The key an alias is stored under: trimmed, then lower-cased. */
  function AliasKey(key: string): string {
    Lower(Trim(key))
  }

  /** `handleAddAlt`'s update: with a non-blank key and value, the value
      trimmed under the normalised key, replacing any entry there; every
      other key untouched. */
  function PutAlias(dict: map<string, string>, key: string, value: string): (r: map<string, string>)
    ensures Trim(key) != "" && Trim(value) != "" ==> AliasKey(key) in r && r[AliasKey(key)] == Trim(value)
    ensures !(Trim(key) != "" && Trim(value) != "") ==> r == dict
    ensures forall k :: k != AliasKey(key) ==> (k in r <==> k in dict) && (k in r ==> r[k] == dict[k])
    ensures r.Keys <= dict.Keys + {AliasKey(key)}
  {
    if Trim(key) != "" && Trim(value) != "" then dict[AliasKey(key) := Trim(value)] else dict
  }

  /** The `delete` on a copy: the key is gone and every other entry stays. */
  function RemoveKey(dict: map<string, string>, key: string): (r: map<string, string>)
    ensures key !in r
    ensures forall k :: k != key ==> (k in r <==> k in dict) && (k in r ==> r[k] == dict[k])
  {
    dict - {key}
  }

  /** A stored key is already in normal form, so a key typed in another
      case or with extra outer spaces lands on the same entry. */
  lemma AliasKeyNormal(key: string)
    ensures AliasKey(AliasKey(key)) == AliasKey(key)
  {
    var t := Trim(key);
    var l := Lower(t);
    if l != [] {
      assert !IsSpace(l[0]) && !IsSpace(l[|l| - 1]);
    }
    TrimOfTrimmed(l);
    LowerIdempotent(t);
  }

  /** Adding an alias and then removing its key is the same as removing
      the key from the start. */
  lemma PutThenRemove(dict: map<string, string>, key: string, value: string)
    ensures RemoveKey(PutAlias(dict, key, value), AliasKey(key)) == RemoveKey(dict, AliasKey(key))
  {
    var lhs := RemoveKey(PutAlias(dict, key, value), AliasKey(key));
    var rhs := RemoveKey(dict, AliasKey(key));
    assert lhs.Keys == rhs.Keys;
  }

  // ---------------------------------------------------------------------
  // The editor
  // ---------------------------------------------------------------------

  class SettingsEditor {
    var brands: seq<string>
    var wordsToRemove: seq<string>
    var aliases: map<string, string>
    var newBrand: string
    var newWord: string
    var newAltKey: string
    var newAltVal: string

    /** The local copies start as the incoming settings, the inputs empty. */
    constructor(initialBrands: seq<string>, initialWords: seq<string>, initialAliases: map<string, string>)
      ensures brands == initialBrands && wordsToRemove == initialWords && aliases == initialAliases
      ensures newBrand == "" && newWord == "" && newAltKey == "" && newAltVal == ""
    {
      brands := initialBrands;
      wordsToRemove := initialWords;
      aliases := initialAliases;
      newBrand, newWord, newAltKey, newAltVal := "", "", "", "";
    }

    /** The reset-on-open effect: when open, the local copies are replaced
        by the incoming settings; the inputs are not touched. */
    method Reset(isOpen: bool, initialBrands: seq<string>, initialWords: seq<string>, initialAliases: map<string, string>)
      modifies this
      ensures isOpen ==> brands == initialBrands && wordsToRemove == initialWords && aliases == initialAliases
      ensures !isOpen ==> brands == old(brands) && wordsToRemove == old(wordsToRemove) && aliases == old(aliases)
      ensures newBrand == old(newBrand) && newWord == old(newWord)
      ensures newAltKey == old(newAltKey) && newAltVal == old(newAltVal)
    {
      if isOpen {
        brands := initialBrands;
        wordsToRemove := initialWords;
        aliases := initialAliases;
      }
    }

    /** `handleAddBrand`: the trimmed input appended and the input cleared,
        or nothing at all for a blank input. */
    method AddBrand()
      modifies this
      ensures brands == Appended(old(brands), old(newBrand))
      ensures Trim(old(newBrand)) != "" ==> newBrand == ""
      ensures Trim(old(newBrand)) == "" ==> newBrand == old(newBrand)
      ensures wordsToRemove == old(wordsToRemove) && aliases == old(aliases) && newWord == old(newWord)
      ensures newAltKey == old(newAltKey) && newAltVal == old(newAltVal)
    {
      var t := Trim(newBrand);
      if t != "" {
        brands := brands + [t];
        newBrand := "";
      }
    }

    /** `handleAddWord`: the same on the remove-word list. */
    method AddWord()
      modifies this
      ensures wordsToRemove == Appended(old(wordsToRemove), old(newWord))
      ensures Trim(old(newWord)) != "" ==> newWord == ""
      ensures Trim(old(newWord)) == "" ==> newWord == old(newWord)
      ensures brands == old(brands) && aliases == old(aliases) && newBrand == old(newBrand)
      ensures newAltKey == old(newAltKey) && newAltVal == old(newAltVal)
    {
      var t := Trim(newWord);
      if t != "" {
        wordsToRemove := wordsToRemove + [t];
        newWord := "";
      }
    }

    /** `handleAddAlt`: with a non-blank key and value, the alias stored and
        both inputs cleared; otherwise nothing changes. */
    method AddAlt()
      modifies this
      ensures aliases == PutAlias(old(aliases), old(newAltKey), old(newAltVal))
      ensures Trim(old(newAltKey)) != "" && Trim(old(newAltVal)) != "" ==> newAltKey == "" && newAltVal == ""
      ensures !(Trim(old(newAltKey)) != "" && Trim(old(newAltVal)) != "") ==>
        newAltKey == old(newAltKey) && newAltVal == old(newAltVal)
      ensures brands == old(brands) && wordsToRemove == old(wordsToRemove)
      ensures newBrand == old(newBrand) && newWord == old(newWord)
    {
      if Trim(newAltKey) != "" && Trim(newAltVal) != "" {
        aliases := aliases[Lower(Trim(newAltKey)) := Trim(newAltVal)];
        newAltKey := "";
        newAltVal := "";
      }
    }

    method RemoveBrand(index: int)
      modifies this
      ensures brands == RemoveAt(old(brands), index)
      ensures wordsToRemove == old(wordsToRemove) && aliases == old(aliases)
      ensures newBrand == old(newBrand) && newWord == old(newWord)
      ensures newAltKey == old(newAltKey) && newAltVal == old(newAltVal)
    {
      brands := RemoveAt(brands, index);
    }

    method RemoveWord(index: int)
      modifies this
      ensures wordsToRemove == RemoveAt(old(wordsToRemove), index)
      ensures brands == old(brands) && aliases == old(aliases)
      ensures newBrand == old(newBrand) && newWord == old(newWord)
      ensures newAltKey == old(newAltKey) && newAltVal == old(newAltVal)
    {
      wordsToRemove := RemoveAt(wordsToRemove, index);
    }

    method RemoveAlt(key: string)
      modifies this
      ensures aliases == RemoveKey(old(aliases), key)
      ensures brands == old(brands) && wordsToRemove == old(wordsToRemove)
      ensures newBrand == old(newBrand) && newWord == old(newWord)
      ensures newAltKey == old(newAltKey) && newAltVal == old(newAltVal)
    {
      var next := aliases;
      next := next - {key};
      aliases := next;
    }
  }
}
