/**
 * The public side of the plugin: asset registration for the enabled
 * shortcodes, and the content filter that swaps in the plugin's own
 * shortcode table, detects the shortcodes in use, strips the tokens of
 * disabled ones and renders the rest.
 *
 * WordPress itself is the `Host`: its global `$shortcode_tags` table, and
 * the register, enqueue and filter calls made to it, recorded in order.
 */
module Public {
  import opened PhpArrays
  import opened Strings
  import opened ShortcodeManager
  import opened ShortcodeText

  // ---------------------------------------------------------------------
  // get_enqueue_object
  // ---------------------------------------------------------------------

  /** The handle suffix and the site-relative url of one asset file. */
  datatype EnqueueObject = EnqueueObject(name: string, url: string)

  /**
   * `get_enqueue_object`: the url is the path with `ABSPATH` replaced by
   * `/`; the name is the last `/` segment with every `.`+extension removed.
   */
  function GetEnqueueObject(path: string, ext: string, abspath: string): (o: EnqueueObject)
    ensures '/' !in o.name
    ensures forall ch :: ch in o.name ==> ch in path
  {
    var url := ReplaceAll(path, abspath, "/");
    var segment := LastSegment(path, '/');
    LastSegmentIsSuffix(path, '/');
    assert forall ch :: ch in segment ==> ch in path;
    ReplaceAllChars(segment, "." + ext, []);
    EnqueueObject(ReplaceAll(segment, "." + ext, []), url)
  }

  /** The last segment of `<dir>/<base>`, and the catalog name it gives. */
  lemma FileOf(dir: string, base: string)
    requires '/' !in base
    ensures LastSegment(dir + "/" + base, '/') == base
    ensures ShortcodeName(dir + "/" + base) == FirstSegment(base, '.')
  {
    assert dir + "/" + base == dir + ['/'] + base;
    LastSegmentAfter(dir, '/', base);
  }

  /**
   * For a file `<dir>/<n>.<ext>` whose name has no `.`, the handle suffix
   * is the catalog name of the file, so the handle registered for the asset
   * is the one enqueued for the shortcode `n`.
   */
  lemma EnqueueNameIsCatalogName(dir: string, n: string, ext: string, abspath: string)
    requires '/' !in n && '.' !in n && '/' !in ext
    ensures GetEnqueueObject(dir + "/" + (n + "." + ext), ext, abspath).name == n
    ensures ShortcodeName(dir + "/" + (n + "." + ext)) == n
  {
    var base := n + "." + ext;
    BaseName(n, ext);
    FileOf(dir, base);
    assert GetEnqueueObject(dir + "/" + base, ext, abspath).name == ReplaceAll(LastSegment(dir + "/" + base, '/'), "." + ext, []);
  }

  /** The file name `<n>.<ext>` loses its extension both ways. */
  lemma BaseName(n: string, ext: string)
    requires '/' !in n && '.' !in n && '/' !in ext
    ensures '/' !in n + "." + ext
    ensures ReplaceAll(n + "." + ext, "." + ext, []) == n
    ensures FirstSegment(n + "." + ext, '.') == n
  {
    assert n + "." + ext == n + ("." + ext);
    RemoveTrailing(n, "." + ext);
    FirstSegmentBefore(n, '.', ext);
  }

  /**
   * A file name with a further `.` gets a different handle suffix than its
   * catalog name: `foo.min.js` registers `foo.min`, while the shortcode is
   * `foo`, so the script registered for it is never enqueued.
   */
  lemma DottedNameDiverges(dir: string, abspath: string)
    ensures GetEnqueueObject(dir + "/" + "foo.min.js", "js", abspath).name == "foo.min"
    ensures ShortcodeName(dir + "/" + "foo.min.js") == "foo"
  {
    var path, ext := dir + "/" + "foo.min.js", "js";
    FileOf(dir, "foo.min.js");
    assert GetEnqueueObject(path, ext, abspath).name == ReplaceAll(LastSegment(path, '/'), "." + ext, []);
    RemoveTrailingAt();
    DottedFirstSegment();
  }

  lemma DottedFirstSegment()
    ensures FirstSegment("foo.min.js", '.') == "foo"
  {
    assert "foo.min.js" == "foo" + ['.'] + "min.js";
    FirstSegmentBefore("foo", '.', "min.js");
  }

  /** `.js` does not start anywhere inside `foo.min.js` before the end. */
  lemma RemoveTrailingAt()
    ensures ReplaceAll("foo.min.js", "." + "js", []) == "foo.min"
  {
    var n, pat := "foo.min", ".js";
    assert "foo.min.js" == n + pat && "." + "js" == pat;
    var s := n + pat;
    forall i | 0 <= i < |n| ensures !StartsAt(pat, s, i) {
      if i == 3 {
        assert s[i + 2] != pat[2];
      } else {
        assert s[i] != pat[0];
      }
    }
    RemoveTrailingUnmatched(n, pat);
  }

  /** A path under `ABSPATH` gets the url `/` followed by the rest of the path. */
  lemma EnqueueUrlRelative(abspath: string, rest: string, ext: string)
    requires abspath != []
    requires forall i: nat :: !StartsAt(abspath, rest, i)
    ensures GetEnqueueObject(abspath + rest, ext, abspath).url == "/" + rest
  {
    var path := abspath + rest;
    assert path[..|abspath|] == abspath && path[|abspath|..] == rest;
    ReplaceAtFront(path, abspath, "/");
    ReplaceAllUnmatched(rest, abspath, "/");
  }

  // ---------------------------------------------------------------------
  // WordPress as seen from the plugin
  // ---------------------------------------------------------------------

  /** One `wp_register_style` or `wp_register_script` call. */
  datatype Registration = Registration(handle: string, src: string, deps: seq<string>, ver: string, extra: PhpValue)

  /** The global shortcode table, and every register, enqueue and filter call, in order. */
  class Host {
    var shortcodeTags: PhpArray
    var styles: seq<Registration>
    var scripts: seq<Registration>
    var enqueuedStyles: seq<string>
    var enqueuedScripts: seq<string>
    var filters: seq<(string, string)>

    constructor(tags: PhpArray)
      ensures shortcodeTags == tags
      ensures styles == [] && scripts == [] && enqueuedStyles == [] && enqueuedScripts == [] && filters == []
    {
      shortcodeTags := tags;
      styles, scripts := [], [];
      enqueuedStyles, enqueuedScripts := [], [];
      filters := [];
    }

    /** `remove_all_shortcodes`. */
    method RemoveAllShortcodes()
      modifies this
      ensures shortcodeTags == []
      ensures styles == old(styles) && scripts == old(scripts) && filters == old(filters)
      ensures enqueuedStyles == old(enqueuedStyles) && enqueuedScripts == old(enqueuedScripts)
    {
      shortcodeTags := [];
    }

    /** `add_shortcode`: the tag is set to the callback, in place or appended. */
    method AddShortcode(tag: string, callback: PhpValue)
      modifies this
      ensures shortcodeTags == Put(old(shortcodeTags), tag, callback)
      ensures styles == old(styles) && scripts == old(scripts) && filters == old(filters)
      ensures enqueuedStyles == old(enqueuedStyles) && enqueuedScripts == old(enqueuedScripts)
    {
      shortcodeTags := Put(shortcodeTags, tag, callback);
    }

    /** `add_filter`. */
    method AddFilter(hook: string, callback: string)
      modifies this
      ensures filters == old(filters) + [(hook, callback)]
      ensures shortcodeTags == old(shortcodeTags) && styles == old(styles) && scripts == old(scripts)
      ensures enqueuedStyles == old(enqueuedStyles) && enqueuedScripts == old(enqueuedScripts)
    {
      filters := filters + [(hook, callback)];
    }

    /** `wp_register_style`. */
    method RegisterStyle(r: Registration)
      modifies this
      ensures styles == old(styles) + [r]
      ensures shortcodeTags == old(shortcodeTags) && scripts == old(scripts) && filters == old(filters)
      ensures enqueuedStyles == old(enqueuedStyles) && enqueuedScripts == old(enqueuedScripts)
    {
      styles := styles + [r];
    }

    /** `wp_register_script`. */
    method RegisterScript(r: Registration)
      modifies this
      ensures scripts == old(scripts) + [r]
      ensures shortcodeTags == old(shortcodeTags) && styles == old(styles) && filters == old(filters)
      ensures enqueuedStyles == old(enqueuedStyles) && enqueuedScripts == old(enqueuedScripts)
    {
      scripts := scripts + [r];
    }

    /** `wp_enqueue_script` followed by `wp_enqueue_style`, both by handle. */
    method EnqueueBoth(handle: string)
      modifies this
      ensures enqueuedScripts == old(enqueuedScripts) + [handle]
      ensures enqueuedStyles == old(enqueuedStyles) + [handle]
      ensures shortcodeTags == old(shortcodeTags) && styles == old(styles) && scripts == old(scripts)
      ensures filters == old(filters)
    {
      enqueuedScripts := enqueuedScripts + [handle];
      enqueuedStyles := enqueuedStyles + [handle];
    }
  }

  // ---------------------------------------------------------------------
  // What the hooks register and enqueue
  // ---------------------------------------------------------------------

  /** The path a catalog value holds; catalog values are always strings. */
  function PathOf(v: PhpValue): string {
    if v.Str? then v.s else []
  }

  /** The stylesheet registration for one file: no dependencies, version 0.1.0, media `false`. */
  function StyleFor(pluginName: string, path: string, abspath: string): Registration {
    var o := GetEnqueueObject(path, "css", abspath);
    Registration(pluginName + "_" + o.name, o.url, [], "0.1.0", Bool(false))
  }

  /** The script registration for one file: depends on jQuery, version 0.1.0, in the footer. */
  function ScriptFor(pluginName: string, path: string, abspath: string): Registration {
    var o := GetEnqueueObject(path, "js", abspath);
    Registration(pluginName + "_" + o.name, o.url, ["jquery"], "0.1.0", Bool(true))
  }

  /** One registration per bucket entry, in bucket order. */
  function StylesFor(pluginName: string, files: PhpArray, abspath: string): (rs: seq<Registration>)
    ensures |rs| == |files|
    ensures forall i :: 0 <= i < |files| ==> rs[i] == StyleFor(pluginName, PathOf(files[i].1), abspath)
  {
    if files == [] then []
    else StylesFor(pluginName, files[..|files| - 1], abspath) + [StyleFor(pluginName, PathOf(files[|files| - 1].1), abspath)]
  }

  function ScriptsFor(pluginName: string, files: PhpArray, abspath: string): (rs: seq<Registration>)
    ensures |rs| == |files|
    ensures forall i :: 0 <= i < |files| ==> rs[i] == ScriptFor(pluginName, PathOf(files[i].1), abspath)
  {
    if files == [] then []
    else ScriptsFor(pluginName, files[..|files| - 1], abspath) + [ScriptFor(pluginName, PathOf(files[|files| - 1].1), abspath)]
  }

  /** The handle `<plugin name>_<shortcode>` for each name, in order. */
  function Handles(pluginName: string, names: seq<string>): (hs: seq<string>)
    ensures |hs| == |names|
    ensures forall i :: 0 <= i < |names| ==> hs[i] == pluginName + "_" + names[i]
  {
    if names == [] then []
    else Handles(pluginName, names[..|names| - 1]) + [pluginName + "_" + names[|names| - 1]]
  }

  /** The shortcodes the filter enqueues for: those `extract_shortcodes` finds, or none. */
  function Loaded(content: string, pluginTags: PhpArray): seq<string> {
    match ExtractShortcodes(content, Arr(pluginTags))
    case Some(names) => names
    case None => []
  }

  // ---------------------------------------------------------------------
  // The public hooks
  // ---------------------------------------------------------------------

  /** `Shortcode_Inserter_Public`: the plugin's name and version and the shortcode manager. */
  class PublicHooks {
    const pluginName: string
    const version: string
    const manager: Manager

    constructor(pluginName: string, version: string, manager: Manager)
      ensures this.pluginName == pluginName && this.version == version && this.manager == manager
    {
      this.pluginName := pluginName;
      this.version := version;
      this.manager := manager;
    }

    /** `enqueue_styles`: register one stylesheet per enabled `css` file. */
    method EnqueueStyles(host: Host, abspath: string)
      modifies host
      ensures host.styles == old(host.styles) + StylesFor(pluginName, Bucket(manager.enabledShortcodes, "css"), abspath)
      ensures host.shortcodeTags == old(host.shortcodeTags) && host.scripts == old(host.scripts)
      ensures host.enqueuedStyles == old(host.enqueuedStyles) && host.enqueuedScripts == old(host.enqueuedScripts)
      ensures host.filters == old(host.filters)
    {
      var shortcodesCss := Bucket(manager.enabledShortcodes, "css");
      for i := 0 to |shortcodesCss|
        invariant host.styles == old(host.styles) + StylesFor(pluginName, shortcodesCss[..i], abspath)
        invariant host.shortcodeTags == old(host.shortcodeTags) && host.scripts == old(host.scripts)
        invariant host.enqueuedStyles == old(host.enqueuedStyles) && host.enqueuedScripts == old(host.enqueuedScripts)
        invariant host.filters == old(host.filters)
      {
        assert shortcodesCss[..i + 1][..i] == shortcodesCss[..i];
        var shortcodeObject := GetEnqueueObject(PathOf(shortcodesCss[i].1), "css", abspath);
        host.RegisterStyle(Registration(pluginName + "_" + shortcodeObject.name, shortcodeObject.url, [], "0.1.0", Bool(false)));
      }
      assert shortcodesCss[..|shortcodesCss|] == shortcodesCss;
    }

    /** `enqueue_scripts`: register one script per enabled `js` file. */
    method EnqueueScripts(host: Host, abspath: string)
      modifies host
      ensures host.scripts == old(host.scripts) + ScriptsFor(pluginName, Bucket(manager.enabledShortcodes, "js"), abspath)
      ensures host.shortcodeTags == old(host.shortcodeTags) && host.styles == old(host.styles)
      ensures host.enqueuedStyles == old(host.enqueuedStyles) && host.enqueuedScripts == old(host.enqueuedScripts)
      ensures host.filters == old(host.filters)
    {
      var shortcodesJs := Bucket(manager.enabledShortcodes, "js");
      for i := 0 to |shortcodesJs|
        invariant host.scripts == old(host.scripts) + ScriptsFor(pluginName, shortcodesJs[..i], abspath)
        invariant host.shortcodeTags == old(host.shortcodeTags) && host.styles == old(host.styles)
        invariant host.enqueuedStyles == old(host.enqueuedStyles) && host.enqueuedScripts == old(host.enqueuedScripts)
        invariant host.filters == old(host.filters)
      {
        assert shortcodesJs[..i + 1][..i] == shortcodesJs[..i];
        var shortcodeObject := GetEnqueueObject(PathOf(shortcodesJs[i].1), "js", abspath);
        host.RegisterScript(Registration(pluginName + "_" + shortcodeObject.name, shortcodeObject.url, ["jquery"], "0.1.0", Bool(true)));
      }
      assert shortcodesJs[..|shortcodesJs|] == shortcodesJs;
    }

    /**
     * `register_shortcodes`: hook `do_shortcode` into widget text, then add
     * every tag of the `shortcode_inserter_register_shortcode` filter's
     * result (`filtered`) to the table, in order.
     */
    method RegisterShortcodes(host: Host, filtered: PhpArray)
      modifies host
      ensures host.shortcodeTags == Merge(old(host.shortcodeTags), filtered)
      ensures host.filters == old(host.filters) + [("widget_text", "do_shortcode")]
      ensures host.styles == old(host.styles) && host.scripts == old(host.scripts)
      ensures host.enqueuedStyles == old(host.enqueuedStyles) && host.enqueuedScripts == old(host.enqueuedScripts)
    {
      host.AddFilter("widget_text", "do_shortcode");
      for i := 0 to |filtered|
        invariant host.shortcodeTags == Merge(old(host.shortcodeTags), filtered[..i])
        invariant host.filters == old(host.filters) + [("widget_text", "do_shortcode")]
        invariant host.styles == old(host.styles) && host.scripts == old(host.scripts)
        invariant host.enqueuedStyles == old(host.enqueuedStyles) && host.enqueuedScripts == old(host.enqueuedScripts)
      {
        assert filtered[..i + 1][..i] == filtered[..i];
        host.AddShortcode(filtered[i].0, filtered[i].1);
      }
      assert filtered[..|filtered|] == filtered;
    }

    /** The loop of the content filter: enqueue the script and style handle of each loaded shortcode. */
    method EnqueueLoaded(host: Host, loaded: seq<string>)
      modifies host
      ensures host.enqueuedScripts == old(host.enqueuedScripts) + Handles(pluginName, loaded)
      ensures host.enqueuedStyles == old(host.enqueuedStyles) + Handles(pluginName, loaded)
      ensures host.shortcodeTags == old(host.shortcodeTags) && host.styles == old(host.styles)
      ensures host.scripts == old(host.scripts) && host.filters == old(host.filters)
    {
      for i := 0 to |loaded|
        invariant host.enqueuedScripts == old(host.enqueuedScripts) + Handles(pluginName, loaded[..i])
        invariant host.enqueuedStyles == old(host.enqueuedStyles) + Handles(pluginName, loaded[..i])
        invariant host.shortcodeTags == old(host.shortcodeTags) && host.styles == old(host.styles)
        invariant host.scripts == old(host.scripts) && host.filters == old(host.filters)
      {
        assert loaded[..i + 1][..i] == loaded[..i];
        host.EnqueueBoth(pluginName + "_" + loaded[i]);
      }
      assert loaded[..|loaded|] == loaded;
    }

    /**
     * `shortcode_inserter_process_shortcodes`: set the global table aside,
     * register the plugin's own tags in an empty table, detect which of them
     * the content uses, strip the tokens of every shortcode that is in
     * neither table, enqueue one script and one style handle per detected
     * shortcode, render with the plugin's table, and put the global table
     * back. `doShortcode` stands for `do_shortcode` run with a given table.
     */
    method ProcessShortcodes(host: Host, content: string, filtered: PhpArray,
                             doShortcode: (PhpArray, string) -> string, h1: char, h2: char)
      returns (out: string)
      modifies host
      ensures host.shortcodeTags == old(host.shortcodeTags)
      ensures var pluginTags := Merge([], filtered);
              out == doShortcode(pluginTags,
                                 StripDisabledShortcodesAsWritten(content, Arr(Merge(old(host.shortcodeTags), pluginTags)), h1, h2))
      ensures host.enqueuedScripts == old(host.enqueuedScripts) + Handles(pluginName, Loaded(content, Merge([], filtered)))
      ensures host.enqueuedStyles == old(host.enqueuedStyles) + Handles(pluginName, Loaded(content, Merge([], filtered)))
      ensures host.styles == old(host.styles) && host.scripts == old(host.scripts)
      ensures host.filters == old(host.filters) + [("widget_text", "do_shortcode")]
    {
      var originalShortcodeTags := host.shortcodeTags;
      host.RemoveAllShortcodes();
      RegisterShortcodes(host, filtered);
      var pluginTags := host.shortcodeTags;
      var loadedShortcodes := ExtractShortcodes(content, Arr(pluginTags));
      var allShortcodeTags := Merge(originalShortcodeTags, pluginTags);
      var stripped := StripDisabledShortcodesAsWritten(content, Arr(allShortcodeTags), h1, h2);
      if loadedShortcodes.Some? {
        EnqueueLoaded(host, loadedShortcodes.value);
      } else {
        assert Handles(pluginName, []) == [];
      }
      out := doShortcode(host.shortcodeTags, stripped);
      host.shortcodeTags := originalShortcodeTags;
    }
  }

  // ---------------------------------------------------------------------
  // What the content filter promises
  // ---------------------------------------------------------------------

  /**
   * Detection sees only the plugin's own tags: a shortcode is enqueued
   * exactly when it is one of them and the content mentions it after a `[`.
   */
  lemma DetectionUsesPluginTags(content: string, filtered: PhpArray, n: string)
    ensures n in Loaded(content, Merge([], filtered))
            <==> n in Keys(filtered) && exists i :: MentionAt(content, i, n)
  {
    var pluginTags := Merge([], filtered);
    assert n in Keys(pluginTags) <==> n in Keys(filtered);
    var r := ExtractShortcodes(content, Arr(pluginTags));
  }

  /**
   * Stripping keeps the shortcodes of both tables: a name is allowed exactly
   * when the global table before the call or the plugin's table has it.
   */
  lemma StripAllowsBothTables(original: PhpArray, filtered: PhpArray, n: string)
    ensures n in ActiveShortcodes(Arr(Merge(original, Merge([], filtered))))
            <==> n in Keys(original) || n in Keys(filtered)
  {
  }

  /** With no `[` in the content nothing is enqueued, and the content reaches `do_shortcode` unchanged. */
  lemma NoBracketNoWork(content: string, original: PhpArray, filtered: PhpArray, pluginName: string, h1: char, h2: char)
    requires '[' !in content
    requires Fresh(content, ActiveShortcodes(Arr(Merge(original, Merge([], filtered)))), h1, h2)
    ensures Handles(pluginName, Loaded(content, Merge([], filtered))) == []
    ensures StripDisabledShortcodesAsWritten(content, Arr(Merge(original, Merge([], filtered))), h1, h2) == content
  {
    StripWithoutBracket(content, Arr(Merge(original, Merge([], filtered))), h1, h2, false);
  }
}
