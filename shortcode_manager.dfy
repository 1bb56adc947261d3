/**
 * The shortcode catalog: discovery of shortcode files by glob, one
 * name -> path array per kind (`php`, `js`, `css`), and the enabled catalog
 * obtained by removing every entry whose key is a disabled shortcode name.
 *
 * The host calls (`get_template_directory`, `apply_filters`, `glob`,
 * `get_option`) are inputs: a `Site` value and an option reader.
 */
module ShortcodeManager {
  import opened PhpArrays
  import opened Strings

  /** What discovery reads from the host: the theme directory, the glob filter hook and the file system. */
  datatype Site = Site(
    templateDir: string,
    globFilter: seq<string> -> seq<string>,
    glob: string -> seq<string>)

  const OptionName: string := "shortcode_inserter"
  const DisabledOptionName: string := OptionName + "_disabled_shortcodes"

  // ---------------------------------------------------------------------
  // Names
  // ---------------------------------------------------------------------

  /** `i` is where the last `/`-separated segment of `path` begins. */
  predicate SegmentStart(path: string, i: int) {
    0 <= i <= |path| && '/' !in path[i..] && (i == 0 || path[i - 1] == '/')
  }

  /**
   * `get_shortcode_name`: the last `/`-separated segment of the path, cut
   * at its first `.`.
   */
  function ShortcodeName(path: string): (name: string)
    ensures '/' !in name && '.' !in name
  {
    var segment := LastSegment(path, '/');
    FirstSegmentIsPrefix(segment, '.');
    FirstSegment(segment, '.')
  }

  /**
   * The name starts where the last segment starts and runs up to the first
   * `.` of that segment, or to its end.
   */
  lemma ShortcodeNameIsSegmentPrefix(path: string)
    ensures var name := ShortcodeName(path);
            exists i :: SegmentStart(path, i) && StartsAt(name, path, i)
                     && (i + |name| == |path| || path[i + |name|] == '.')
  {
    var segment := LastSegment(path, '/');
    var name := FirstSegment(segment, '.');
    LastSegmentIsSuffix(path, '/');
    FirstSegmentIsPrefix(segment, '.');
    var i := |path| - |segment|;
    assert SegmentStart(path, i);
    assert path[i..i + |name|] == segment[..|name|];
  }

  // ---------------------------------------------------------------------
  // Glob patterns and paths
  // ---------------------------------------------------------------------

  /** The one pattern the plugin starts from, before the filter hook sees it. */
  function DefaultGlobPatterns(templateDir: string): seq<string> {
    [templateDir + "/shortcodes/*/*"]
  }

  /** Every pattern with the extension appended. */
  function WithExtension(patterns: seq<string>, extension: string): seq<string> {
    seq(|patterns|, i requires 0 <= i < |patterns| => patterns[i] + extension)
  }

  /** `get_glob_regex_list`: the filtered pattern list, each pattern with `extension` appended. */
  method GetGlobRegexList(site: Site, extension: string) returns (list: seq<string>)
    ensures var filtered := site.globFilter(DefaultGlobPatterns(site.templateDir));
            |list| == |filtered| && forall i :: 0 <= i < |list| ==> list[i] == filtered[i] + extension
  {
    var filtered := site.globFilter(DefaultGlobPatterns(site.templateDir));
    list := filtered;
    var i := 0;
    while i < |list|
      invariant |list| == |filtered| && 0 <= i <= |list|
      invariant forall j :: 0 <= j < i ==> list[j] == filtered[j] + extension
      invariant forall j :: i <= j < |list| ==> list[j] == filtered[j]
    {
      list := list[i := list[i] + extension];
      i := i + 1;
    }
  }

  /** The paths all patterns match, pattern by pattern, concatenated in pattern order. */
  function Globbed(patterns: seq<string>, glob: string -> seq<string>): seq<string>
    decreases |patterns|
  {
    if patterns == [] then []
    else Globbed(patterns[..|patterns| - 1], glob) + glob(patterns[|patterns| - 1])
  }

  /** `$filtered_paths[$name] = $path` for every path in order. */
  function IndexByName(paths: seq<string>): PhpArray
    decreases |paths|
  {
    if paths == [] then []
    else
      var last := paths[|paths| - 1];
      Put(IndexByName(paths[..|paths| - 1]), ShortcodeName(last), Str(last))
  }

  /** The index of the last path whose name is `name`, or -1. */
  function LastNamed(paths: seq<string>, name: string): (j: int)
    ensures -1 <= j < |paths|
    ensures j >= 0 ==> ShortcodeName(paths[j]) == name
    ensures forall j' :: j < j' < |paths| ==> ShortcodeName(paths[j']) != name
    decreases |paths|
  {
    if paths == [] then -1
    else if ShortcodeName(paths[|paths| - 1]) == name then |paths| - 1
    else LastNamed(paths[..|paths| - 1], name)
  }

  /** The distinct names of the paths, in the order each is first seen. */
  function NamesInFirstSeenOrder(paths: seq<string>): seq<string>
    decreases |paths|
  {
    if paths == [] then []
    else
      var names := NamesInFirstSeenOrder(paths[..|paths| - 1]);
      var name := ShortcodeName(paths[|paths| - 1]);
      if name in names then names else names + [name]
  }

  /**
   * Last wins: each name maps to the last path carrying it, and a name is
   * a key exactly when some path carries it. Keys keep the position of the
   * name's first discovery, because PHP overwrites an existing key in place.
   */
  lemma {:induction false} IndexByNameLastWins(paths: seq<string>, name: string)
    ensures var j := LastNamed(paths, name);
            Lookup(IndexByName(paths), name) == if j >= 0 then Some(Str(paths[j])) else None
    decreases |paths|
  {
    if paths != [] {
      IndexByNameLastWins(paths[..|paths| - 1], name);
    }
  }

  lemma {:induction false} IndexByNameKeys(paths: seq<string>)
    ensures Keys(IndexByName(paths)) == NamesInFirstSeenOrder(paths)
    decreases |paths|
  {
    if paths != [] {
      IndexByNameKeys(paths[..|paths| - 1]);
    }
  }

  /** Every key names a globbed path, and every globbed path's name is a key. */
  lemma IndexByNameCovers(paths: seq<string>)
    ensures forall k :: k in Keys(IndexByName(paths)) ==>
              exists j :: 0 <= j < |paths| && ShortcodeName(paths[j]) == k
    ensures forall j :: 0 <= j < |paths| ==> ShortcodeName(paths[j]) in Keys(IndexByName(paths))
  {
    forall k | k in Keys(IndexByName(paths))
      ensures exists j :: 0 <= j < |paths| && ShortcodeName(paths[j]) == k
    {
      IndexByNameLastWins(paths, k);
    }
    forall j | 0 <= j < |paths| ensures ShortcodeName(paths[j]) in Keys(IndexByName(paths)) {
      IndexByNameLastWins(paths, ShortcodeName(paths[j]));
    }
  }

  /** Values are paths: the array is flat, and every value's name is its key. */
  lemma {:induction false} IndexByNameValues(paths: seq<string>)
    ensures DistinctKeys(IndexByName(paths))
    ensures forall e :: e in IndexByName(paths) ==> e.1.Str? && ShortcodeName(e.1.s) == e.0
    decreases |paths|
  {
    if paths != [] {
      var init := IndexByName(paths[..|paths| - 1]);
      var last := paths[|paths| - 1];
      IndexByNameValues(paths[..|paths| - 1]);
      PutKeepsKeysDistinct(init, ShortcodeName(last), Str(last));
      PutEntries(init, ShortcodeName(last), Str(last));
    }
  }

  lemma {:induction false} PutEntries(a: PhpArray, k: string, v: PhpValue)
    ensures forall e :: e in Put(a, k, v) ==> e in a || e == (k, v)
  {
    if a != [] && a[0].0 != k {
      PutEntries(a[1..], k, v);
    }
  }

  lemma IndexByNameStep(paths: seq<string>, i: nat)
    requires i < |paths|
    ensures IndexByName(paths[..i + 1]) == Put(IndexByName(paths[..i]), ShortcodeName(paths[i]), Str(paths[i]))
  {
    assert paths[..i + 1][..i] == paths[..i];
  }

  lemma GlobbedStep(patterns: seq<string>, i: nat, glob: string -> seq<string>)
    requires i < |patterns|
    ensures Globbed(patterns[..i + 1], glob) == Globbed(patterns[..i], glob) + glob(patterns[i])
  {
    assert patterns[..i + 1][..i] == patterns[..i];
  }

  /** The paths of one kind: `get_paths($extension)`. */
  function PathsFor(site: Site, extension: string): PhpArray {
    var patterns := WithExtension(site.globFilter(DefaultGlobPatterns(site.templateDir)), extension);
    IndexByName(Globbed(patterns, site.glob))
  }

  /** `get_paths`: glob every pattern, concatenate, and index the paths by shortcode name. */
  method GetPaths(site: Site, extension: string) returns (filteredPaths: PhpArray)
    ensures filteredPaths == PathsFor(site, extension)
  {
    var globRegexList := GetGlobRegexList(site, extension);
    assert globRegexList == WithExtension(site.globFilter(DefaultGlobPatterns(site.templateDir)), extension);
    var pathList: seq<string> := [];
    for i := 0 to |globRegexList|
      invariant pathList == Globbed(globRegexList[..i], site.glob)
    {
      GlobbedStep(globRegexList, i, site.glob);
      pathList := pathList + site.glob(globRegexList[i]);
    }
    assert globRegexList[..|globRegexList|] == globRegexList;
    filteredPaths := [];
    for i := 0 to |pathList|
      invariant filteredPaths == IndexByName(pathList[..i])
    {
      IndexByNameStep(pathList, i);
      var name := ShortcodeName(pathList[i]);
      filteredPaths := Put(filteredPaths, name, Str(pathList[i]));
    }
    assert pathList[..|pathList|] == pathList;
  }

  /**
   * When two patterns both match a file named `name`, the later pattern's
   * file is the one kept.
   */
  lemma LaterPatternWins(glob: string -> seq<string>, first: string, second: string, name: string, p: string)
    requires p in glob(second) && ShortcodeName(p) == name
    ensures exists q :: q in glob(second) && ShortcodeName(q) == name
                        && Lookup(IndexByName(Globbed([first, second], glob)), name) == Some(Str(q))
  {
    GlobbedPair(glob, first, second);
    LaterPathWins(glob(first), glob(second), name, p);
  }

  lemma GlobbedPair(glob: string -> seq<string>, first: string, second: string)
    ensures Globbed([first, second], glob) == glob(first) + glob(second)
  {
    assert Globbed([first], glob) == Globbed([], glob) + glob(first);
    assert [first, second][..1] == [first];
  }

  lemma LaterPathWins(g1: seq<string>, g2: seq<string>, name: string, p: string)
    requires p in g2 && ShortcodeName(p) == name
    ensures exists q :: q in g2 && ShortcodeName(q) == name && Lookup(IndexByName(g1 + g2), name) == Some(Str(q))
  {
    var paths := g1 + g2;
    var k :| 0 <= k < |g2| && g2[k] == p;
    assert paths[|g1| + k] == p;
    var j := LastPathWins(paths, name, |g1| + k);
    assert paths[j] == g2[j - |g1|];
  }

  /** The path kept for a name is at or after every path carrying that name. */
  lemma LastPathWins(paths: seq<string>, name: string, i: nat) returns (j: nat)
    requires i < |paths| && ShortcodeName(paths[i]) == name
    ensures i <= j < |paths| && ShortcodeName(paths[j]) == name
    ensures Lookup(IndexByName(paths), name) == Some(Str(paths[j]))
  {
    IndexByNameLastWins(paths, name);
    j := LastNamed(paths, name);
    assert j >= i;
  }

  // ---------------------------------------------------------------------
  // The catalog
  // ---------------------------------------------------------------------

  /** The kinds of shortcode files and the extensions they are globbed with. */
  const Kinds: seq<(string, string)> := [("php", ".php"), ("js", ".js"), ("css", ".css")]

  /** `get_all_shortcodes`: one bucket per kind, in the order php, js, css. */
  function AllShortcodes(site: Site): PhpArray {
    [("php", Arr(PathsFor(site, ".php"))), ("js", Arr(PathsFor(site, ".js"))), ("css", Arr(PathsFor(site, ".css")))]
  }

  /** `$catalog[$kind]`, or the empty array when the bucket is missing or not an array. */
  function Bucket(catalog: PhpArray, kind: string): PhpArray {
    match Lookup(catalog, kind)
    case Some(Arr(entries)) => entries
    case _ => []
  }

  /** The full catalog has exactly the three buckets, each built from its own extension. */
  lemma AllShortcodesShape(site: Site)
    ensures Keys(AllShortcodes(site)) == ["php", "js", "css"]
    ensures forall i :: 0 <= i < |Kinds| ==>
              Bucket(AllShortcodes(site), Kinds[i].0) == PathsFor(site, Kinds[i].1)
  {
    forall i | 0 <= i < |Kinds|
      ensures Bucket(AllShortcodes(site), Kinds[i].0) == PathsFor(site, Kinds[i].1)
    {
      BucketOfKind(site, i);
    }
  }

  // ---------------------------------------------------------------------
  // Enablement
  // ---------------------------------------------------------------------

  /** The keys of the stored option; a falsy option or a non-array disables nothing. */
  function DisabledKeys(option: PhpValue): seq<string> {
    if Truthy(option) && option.Arr? then Keys(option.entries) else []
  }

  /**
   * `remove_disabled_shortcodes` from entry `i` on: array values are recursed
   * into, any other value is dropped when its key is one of `keys`.
   */
  function RemoveDisabledFrom(a: PhpArray, i: nat, keys: seq<string>): PhpArray
    requires i <= |a|
    decreases Arr(a), |a| - i
  {
    if i == |a| then []
    else
      var (k, v) := a[i];
      var rest := RemoveDisabledFrom(a, i + 1, keys);
      if v.Arr? then
        assert a[i] in a;
        [(k, Arr(RemoveDisabledFrom(v.entries, 0, keys)))] + rest
      else if k in keys then rest
      else [(k, v)] + rest
  }

  function RemoveDisabled(a: PhpArray, keys: seq<string>): PhpArray {
    RemoveDisabledFrom(a, 0, keys)
  }

  /** `remove_disabled_shortcodes(&$array, $keys)`, which rewrites the array it is given. */
  method RemoveDisabledShortcodes(a: PhpArray, keys: seq<string>) returns (r: PhpArray)
    ensures r == RemoveDisabled(a, keys)
    decreases Arr(a)
  {
    r := [];
    var i := 0;
    while i < |a|
      invariant 0 <= i <= |a|
      invariant r + RemoveDisabledFrom(a, i, keys) == RemoveDisabled(a, keys)
    {
      var (k, v) := a[i];
      if v.Arr? {
        assert a[i] in a;
        var inner := RemoveDisabledShortcodes(v.entries, keys);
        r := r + [(k, Arr(inner))];
      } else if k !in keys {
        r := r + [(k, v)];
      }
      i := i + 1;
    }
  }

  /** `get_enabled_shortcodes`: read the option, collect its keys, and remove them from the catalog. */
  method GetEnabledShortcodes(all: PhpArray, getOption: string -> PhpValue) returns (enabled: PhpArray)
    ensures enabled == RemoveDisabled(all, DisabledKeys(getOption(DisabledOptionName)))
  {
    var option := getOption(DisabledOptionName);
    var disabled: seq<string> := [];
    if Truthy(option) && option.Arr? {
      var entries := option.entries;
      for i := 0 to |entries|
        invariant disabled == Keys(entries[..i])
      {
        assert entries[..i + 1] == entries[..i] + [entries[i]];
        KeysAppend(entries[..i], entries[i]);
        disabled := disabled + [entries[i].0];
      }
      assert entries[..|entries|] == entries;
    }
    enabled := RemoveDisabledShortcodes(all, disabled);
  }

  lemma KeysAppend(a: PhpArray, e: (string, PhpValue))
    ensures Keys(a + [e]) == Keys(a) + [e.0]
  {
  }

  /** With nothing disabled the catalog is returned unchanged, at every level. */
  lemma {:induction false} RemoveNothing(a: PhpArray, i: nat)
    requires i <= |a|
    ensures RemoveDisabledFrom(a, i, []) == a[i..]
    decreases Arr(a), |a| - i
  {
    if i < |a| {
      RemoveNothing(a, i + 1);
      var (k, v) := a[i];
      if v.Arr? {
        assert a[i] in a;
        RemoveNothing(v.entries, 0);
        assert v == Arr(v.entries);
      }
      assert a[i..] == [a[i]] + a[i + 1..];
    }
  }

  /** An empty or false option, or one that is not an array, leaves the catalog unchanged. */
  lemma FalsyOptionKeepsCatalog(all: PhpArray, option: PhpValue)
    requires !Truthy(option) || !option.Arr?
    ensures RemoveDisabled(all, DisabledKeys(option)) == all
  {
    RemoveNothing(all, 0);
  }

  /** Only the option's keys matter, never its values. */
  lemma OnlyOptionKeysMatter(all: PhpArray, o1: PhpValue, o2: PhpValue)
    requires o1.Arr? && o2.Arr? && Keys(o1.entries) == Keys(o2.entries)
    ensures RemoveDisabled(all, DisabledKeys(o1)) == RemoveDisabled(all, DisabledKeys(o2))
  {
    assert |o1.entries| == |o2.entries|;
  }

  /**
   * An entry whose value is an array is never removed, even when its key is
   * disabled: it is recursed into instead. A shortcode named `php` does not
   * remove the `php` bucket.
   */
  lemma {:induction false} ArrayEntriesSurvive(a: PhpArray, i: nat, keys: seq<string>, k: string, b: PhpArray)
    requires i <= |a|
    requires Lookup(a[i..], k) == Some(Arr(b))
    ensures Lookup(RemoveDisabledFrom(a, i, keys), k) == Some(Arr(RemoveDisabledFrom(b, 0, keys)))
    decreases |a| - i
  {
    assert a[i..][1..] == a[i + 1..];
    var rest := RemoveDisabledFrom(a, i + 1, keys);
    var (k0, v0) := a[i];
    if v0.Arr? {
      var r := [(k0, Arr(RemoveDisabledFrom(v0.entries, 0, keys)))] + rest;
      assert r[1..] == rest;
      if k0 != k {
        ArrayEntriesSurvive(a, i + 1, keys, k, b);
      }
    } else if k0 in keys {
      assert k0 != k;
      ArrayEntriesSurvive(a, i + 1, keys, k, b);
    } else {
      assert ([(k0, v0)] + rest)[1..] == rest;
      assert k0 != k;
      ArrayEntriesSurvive(a, i + 1, keys, k, b);
    }
  }

  /**
   * In a flat array (no array values) an entry survives exactly when its key
   * is not disabled, with its value unchanged, and the survivors keep their order.
   */
  lemma {:induction false} FlatRemoval(a: PhpArray, i: nat, keys: seq<string>, k: string)
    requires i <= |a|
    requires forall e :: e in a ==> !e.1.Arr?
    ensures Lookup(RemoveDisabledFrom(a, i, keys), k) == if k in keys then None else Lookup(a[i..], k)
    ensures IsSubsequence(RemoveDisabledFrom(a, i, keys), a[i..])
    decreases |a| - i
  {
    if i < |a| {
      assert a[i..][1..] == a[i + 1..];
      assert a[i] in a;
      FlatRemoval(a, i + 1, keys, k);
      var rest := RemoveDisabledFrom(a, i + 1, keys);
      if a[i].0 !in keys {
        assert ([a[i]] + rest)[1..] == rest;
      }
    }
  }

  /** Every bucket of a catalog made of arrays survives removal, in place. */
  lemma {:induction false} BucketsSurvive(a: PhpArray, i: nat, keys: seq<string>)
    requires i <= |a|
    requires forall e :: e in a ==> e.1.Arr?
    ensures Keys(RemoveDisabledFrom(a, i, keys)) == Keys(a[i..])
    decreases |a| - i
  {
    if i < |a| {
      assert a[i] in a;
      assert a[i..] == [a[i]] + a[i + 1..];
      BucketsSurvive(a, i + 1, keys);
    }
  }

  /**
   * A flat bucket of any catalog loses exactly the entries whose key is
   * disabled; the survivors keep their value and their order.
   */
  lemma EnabledBucket(all: PhpArray, keys: seq<string>, kind: string, k: string)
    requires Lookup(all, kind).Some? && Lookup(all, kind).value.Arr?
    requires forall e :: e in Bucket(all, kind) ==> !e.1.Arr?
    ensures var enabled := RemoveDisabled(all, keys);
            && Lookup(Bucket(enabled, kind), k) == (if k in keys then None else Lookup(Bucket(all, kind), k))
            && IsSubsequence(Bucket(enabled, kind), Bucket(all, kind))
  {
    var b := Bucket(all, kind);
    assert all[0..] == all;
    ArrayEntriesSurvive(all, 0, keys, kind, b);
    FlatRemoval(b, 0, keys, k);
    assert b[0..] == b;
  }

  /** The bucket of `kind` in the full catalog holds the paths found for its extension. */
  lemma BucketOfKind(site: Site, i: nat)
    requires i < |Kinds|
    ensures Lookup(AllShortcodes(site), Kinds[i].0) == Some(Arr(PathsFor(site, Kinds[i].1)))
  {
    var php, js, css := PathsFor(site, ".php"), PathsFor(site, ".js"), PathsFor(site, ".css");
    LookupOfThree(("php", Arr(php)), ("js", Arr(js)), ("css", Arr(css)), Kinds[i].0);
    if i == 0 {
      assert Kinds[i] == ("php", ".php");
    } else if i == 1 {
      assert Kinds[i] == ("js", ".js");
    } else {
      assert Kinds[i] == ("css", ".css");
    }
  }

  lemma LookupOfThree(x: (string, PhpValue), y: (string, PhpValue), z: (string, PhpValue), k: string)
    ensures Lookup([x, y, z], k)
            == if x.0 == k then Some(x.1) else if y.0 == k then Some(y.1) else if z.0 == k then Some(z.1) else None
  {
    assert [x, y, z][1..] == [y, z] && [y, z][1..] == [z] && [z][1..] == [];
  }

  /**
   * Each enabled bucket is the full bucket minus the entries whose key is a
   * key of the disabled option; survivors keep their path and their order,
   * and all three buckets are still present.
   */
  lemma EnabledBuckets(site: Site, option: PhpValue, i: nat, k: string)
    requires i < |Kinds|
    ensures var all := AllShortcodes(site);
            var kind := Kinds[i].0;
            var enabled := RemoveDisabled(all, DisabledKeys(option));
            && Keys(enabled) == ["php", "js", "css"]
            && Lookup(Bucket(enabled, kind), k)
               == (if k in DisabledKeys(option) then None else Lookup(Bucket(all, kind), k))
            && IsSubsequence(Bucket(enabled, kind), Bucket(all, kind))
  {
    var all := AllShortcodes(site);
    var keys := DisabledKeys(option);
    CatalogOfBuckets(site);
    BucketsSurvive(all, 0, keys);
    FlatBucket(site, i);
    EnabledBucket(all, keys, Kinds[i].0, k);
  }

  /** The full catalog is an array of three arrays. */
  lemma CatalogOfBuckets(site: Site)
    ensures var all := AllShortcodes(site);
            && all[0..] == all && Keys(all) == ["php", "js", "css"]
            && forall e :: e in all ==> e.1.Arr?
  {
  }

  /** Each bucket of the full catalog is an array of paths, none of them an array. */
  lemma FlatBucket(site: Site, i: nat)
    requires i < |Kinds|
    ensures Lookup(AllShortcodes(site), Kinds[i].0).Some? && Lookup(AllShortcodes(site), Kinds[i].0).value.Arr?
    ensures forall e :: e in Bucket(AllShortcodes(site), Kinds[i].0) ==> !e.1.Arr?
  {
    BucketOfKind(site, i);
    var paths := Globbed(WithExtension(site.globFilter(DefaultGlobPatterns(site.templateDir)), Kinds[i].1), site.glob);
    IndexByNameValues(paths);
  }

  // ---------------------------------------------------------------------
  // The manager object
  // ---------------------------------------------------------------------

  /**
   * The manager object: `init` fills the full catalog and the enabled
   * catalog, which the admin screen and the public hooks read afterwards.
   * Both fields start out unset, read here as the empty array.
   */
  class Manager {
    var allShortcodes: PhpArray
    var enabledShortcodes: PhpArray

    constructor()
      ensures allShortcodes == [] && enabledShortcodes == []
    {
      allShortcodes := [];
      enabledShortcodes := [];
    }

    /** `get_all_shortcodes`: build the three buckets, store them in the field and return them. */
    method GetAllShortcodes(site: Site) returns (all: PhpArray)
      modifies this
      ensures all == AllShortcodes(site)
      ensures allShortcodes == all && enabledShortcodes == old(enabledShortcodes)
    {
      var php := GetPaths(site, ".php");
      var js := GetPaths(site, ".js");
      var css := GetPaths(site, ".css");
      // Three assignments to keys not yet set append in that order.
      all := [("php", Arr(php)), ("js", Arr(js)), ("css", Arr(css))];
      allShortcodes := all;
    }

    /** `init`: the full catalog, then the enabled catalog derived from it and the stored option. */
    method Init(site: Site, getOption: string -> PhpValue)
      modifies this
      ensures allShortcodes == AllShortcodes(site)
      ensures enabledShortcodes == RemoveDisabled(allShortcodes, DisabledKeys(getOption(DisabledOptionName)))
    {
      var all := GetAllShortcodes(site);
      var enabled := GetEnabledShortcodes(all, getOption);
      enabledShortcodes := enabled;
    }
  }
}
