/**
 * The admin side of the plugin: the sanitiser the settings API runs on the
 * submitted "disabled shortcodes" checkboxes, and the list of enabled
 * shortcodes offered by the editor's TinyMCE button.
 */
module Admin {
  import opened PhpArrays
  import opened ShortcodeManager

  // ---------------------------------------------------------------------
  // Sanitising the disabled-shortcodes input
  // ---------------------------------------------------------------------

  /** `isset($input[$name]) && 1 == $input[$name]`. */
  predicate Selected(input: PhpArray, name: string) {
    var v := Lookup(input, name);
    v.Some? && LooselyEqualsOne(v.value)
  }

  /** The clean array built by visiting `names` in order and setting each selected one to 1. */
  function Clean(input: PhpArray, names: seq<string>): PhpArray
    decreases |names|
  {
    if names == [] then []
    else
      var init := Clean(input, names[..|names| - 1]);
      var name := names[|names| - 1];
      if Selected(input, name) then Put(init, name, Int(1)) else init
  }

  /**
   * What the sanitiser returns for a submitted value and the names of the
   * catalog's `php` bucket: nothing for a value that is not an array, is
   * empty or is false, otherwise the selected valid names mapped to 1.
   */
  function Sanitized(input: PhpValue, validNames: seq<string>): PhpArray {
    if !input.Arr? || !Truthy(input) || input == Bool(false) then []
    else Clean(input.entries, validNames)
  }

  /** The names of `names` that the input selects, in the order of `names`. */
  function SelectedNames(input: PhpArray, names: seq<string>): seq<string>
    decreases |names|
  {
    if names == [] then []
    else
      var init := SelectedNames(input, names[..|names| - 1]);
      var name := names[|names| - 1];
      if Selected(input, name) then init + [name] else init
  }

  /**
   * `shortcode_inserter_sanitize_disabled_shortcodes`: collect the keys of
   * the catalog's `php` bucket, then keep each one the input sets to 1.
   */
  method SanitizeDisabledShortcodes(manager: Manager, input: PhpValue) returns (clean: PhpArray)
    ensures clean == Sanitized(input, Keys(Bucket(manager.allShortcodes, "php")))
  {
    if !input.Arr? || !Truthy(input) || input == Bool(false) {
      return [];
    }
    var validShortcodes := Bucket(manager.allShortcodes, "php");
    var validNames: seq<string> := [];
    for i := 0 to |validShortcodes|
      invariant validNames == Keys(validShortcodes[..i])
    {
      assert validShortcodes[..i + 1] == validShortcodes[..i] + [validShortcodes[i]];
      KeysAppend(validShortcodes[..i], validShortcodes[i]);
      validNames := validNames + [validShortcodes[i].0];
    }
    assert validShortcodes[..|validShortcodes|] == validShortcodes;
    clean := [];
    for i := 0 to |validNames|
      invariant clean == Clean(input.entries, validNames[..i])
    {
      assert validNames[..i + 1][..i] == validNames[..i];
      if Selected(input.entries, validNames[i]) {
        clean := Put(clean, validNames[i], Int(1));
      }
    }
    assert validNames[..|validNames|] == validNames;
  }

  /** Input that is not an array, is empty, or is false sanitises to the empty array. */
  lemma RejectedInput(input: PhpValue, validNames: seq<string>)
    requires !input.Arr? || input.entries == []
    ensures Sanitized(input, validNames) == []
  {
  }

  /**
   * A name is in the output exactly when it is a valid name and the input
   * sets it to a value equal to 1, and its value is then 1: forged and
   * stale names are dropped.
   */
  lemma {:induction false} CleanLookup(input: PhpArray, names: seq<string>, k: string)
    ensures Lookup(Clean(input, names), k) == if k in names && Selected(input, k) then Some(Int(1)) else None
    decreases |names|
  {
    if names != [] {
      var init := names[..|names| - 1];
      CleanLookup(input, init, k);
      assert names == init + [names[|names| - 1]];
    }
  }

  /** Every output key is a valid name, and every output value is 1. */
  lemma CleanEntries(input: PhpArray, names: seq<string>)
    ensures forall e :: e in Clean(input, names) ==> e.0 in names && e.1 == Int(1)
  {
    var c := Clean(input, names);
    forall e | e in c ensures e.0 in names && e.1 == Int(1) {
      var i :| 0 <= i < |c| && c[i] == e;
      assert Keys(c)[i] == e.0;
      CleanLookup(input, names, e.0);
      CleanKeysDistinct(input, names);
      LookupOfDistinct(c, i);
    }
  }

  lemma {:induction false} CleanKeysDistinct(input: PhpArray, names: seq<string>)
    ensures DistinctKeys(Clean(input, names))
    decreases |names|
  {
    if names != [] {
      var init := names[..|names| - 1];
      CleanKeysDistinct(input, init);
      if Selected(input, names[|names| - 1]) {
        PutKeepsKeysDistinct(Clean(input, init), names[|names| - 1], Int(1));
      }
    }
  }

  /** In an array with distinct keys, looking up an entry's key finds that entry. */
  lemma {:induction false} LookupOfDistinct(a: PhpArray, i: nat)
    requires DistinctKeys(a) && i < |a|
    ensures Lookup(a, a[i].0) == Some(a[i].1)
  {
    if i > 0 {
      assert a[0].0 != a[i].0;
      LookupOfDistinct(a[1..], i - 1);
    }
  }

  /**
   * When the valid names are distinct (they are the keys of an array),
   * the output keys are the selected valid names in catalog order, whatever
   * the order of the input.
   */
  lemma {:induction false} CleanKeysInCatalogOrder(input: PhpArray, names: seq<string>)
    requires forall i, j :: 0 <= i < j < |names| ==> names[i] != names[j]
    ensures Keys(Clean(input, names)) == SelectedNames(input, names)
    decreases |names|
  {
    if names != [] {
      var init := names[..|names| - 1];
      var name := names[|names| - 1];
      CleanKeysInCatalogOrder(input, init);
      if Selected(input, name) {
        CleanLookup(input, init, name);
        assert name !in init;
      }
    }
  }

  /** Only the selection matters: two inputs that select the same names clean to the same array. */
  lemma {:induction false} CleanSameSelection(i1: PhpArray, i2: PhpArray, names: seq<string>)
    requires forall n :: n in names ==> (Selected(i1, n) <==> Selected(i2, n))
    ensures Clean(i1, names) == Clean(i2, names)
    decreases |names|
  {
    if names != [] {
      var init := names[..|names| - 1];
      assert forall n :: n in init ==> n in names;
      CleanSameSelection(i1, i2, init);
    }
  }

  /** Sanitising is idempotent against a fixed catalog. */
  lemma SanitizeIdempotent(input: PhpValue, validNames: seq<string>)
    ensures Sanitized(Arr(Sanitized(input, validNames)), validNames) == Sanitized(input, validNames)
  {
    var once := Sanitized(input, validNames);
    if once != [] {
      var entries := input.entries;
      forall n | n in validNames ensures Selected(once, n) <==> Selected(entries, n) {
        CleanLookup(entries, validNames, n);
      }
      CleanSameSelection(once, entries, validNames);
    }
  }

  // ---------------------------------------------------------------------
  // The TinyMCE menu
  // ---------------------------------------------------------------------

  /** The two header fields read from a shortcode file. */
  datatype FileHeader = FileHeader(shortcodeName: string, tinymceTemplate: string)

  /** One `{text, content}` menu entry. */
  datatype MenuItem = MenuItem(text: string, content: string)

  /** The button's data: PHP `false` when nothing is enabled, otherwise the menu. */
  datatype TinyMce = NoShortcodes | Menu(items: seq<MenuItem>)

  /** The menu entry for one shortcode file, from its headers. */
  function ItemFor(header: FileHeader): MenuItem {
    MenuItem(header.shortcodeName, header.tinymceTemplate)
  }

  /**
   * `shortcode_inserter_get_shortcode_tinymce`: false for an empty enabled
   * `php` bucket, otherwise one entry per enabled file in catalog order.
   * `readHeaders` stands for `get_file_data` with the two header names.
   */
  method GetShortcodeTinymce(manager: Manager, readHeaders: PhpValue -> FileHeader) returns (r: TinyMce)
    ensures var files := Bucket(manager.enabledShortcodes, "php");
            && (r.NoShortcodes? <==> files == [])
            && (r.Menu? ==> |r.items| == |files|
                            && forall i :: 0 <= i < |files| ==> r.items[i] == ItemFor(readHeaders(files[i].1)))
  {
    var shortcodeFiles := Bucket(manager.enabledShortcodes, "php");
    if shortcodeFiles != [] {
      var items: seq<MenuItem> := [];
      for i := 0 to |shortcodeFiles|
        invariant |items| == i
        invariant forall j :: 0 <= j < i ==> items[j] == ItemFor(readHeaders(shortcodeFiles[j].1))
      {
        var fileData := readHeaders(shortcodeFiles[i].1);
        items := items + [MenuItem(fileData.shortcodeName, fileData.tinymceTemplate)];
      }
      r := Menu(items);
    } else {
      r := NoShortcodes;
    }
  }

  /**
   * After `init`, no file whose name is a key of the disabled option is in
   * the enabled `php` bucket the menu is built from.
   */
  lemma MenuOmitsDisabled(site: Site, option: PhpValue, e: (string, PhpValue))
    requires e in Bucket(RemoveDisabled(AllShortcodes(site), DisabledKeys(option)), "php")
    ensures e.0 !in DisabledKeys(option)
  {
    var bucket := Bucket(RemoveDisabled(AllShortcodes(site), DisabledKeys(option)), "php");
    var i :| 0 <= i < |bucket| && bucket[i] == e;
    assert Keys(bucket)[i] == e.0;
    EnabledBuckets(site, option, 0, e.0);
  }
}
