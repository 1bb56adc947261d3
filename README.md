# Shortcode Inserter — a Dafny model of its core

Shortcode Inserter is a WordPress plugin that finds shortcode files in a
theme. For each shortcode it keeps a PHP file and optionally a `.js` and a
`.css` file. It lets the site administrator disable shortcodes, and it
rewrites post content so that:

- disabled shortcode tags disappear from the content;
- the scripts and styles of the shortcodes that are actually used are
  enqueued.

This project models the WordPress-free logic of that plugin and proves what
it does. The model has three parts:

- **Catalog and enablement** (`shortcode_manager.dfy`, module
  `ShortcodeManager`).
  - Globbed paths become a name → path map per kind (`php`, `js`, `css`).
    The name is the last path segment cut at its first `.`, and when two
    paths share a name the later one wins.
  - The enabled catalog removes, from every bucket, each entry whose key is a
    key of the stored "disabled shortcodes" option.
  - `Manager` is a class with the two fields that `init` fills.
- **Sanitiser and editor menu** (`admin.dfy`, module `Admin`).
  - The settings sanitiser keeps only catalog names whose submitted value
    equals 1, normalised to 1, in catalog order.
  - The TinyMCE menu holds one entry per enabled PHP file.
- **Content rewriting** (`shortcode_text.dfy`, module `ShortcodeText`, and
  `public.dfy`, module `Public`).
  - Detection of registered tags after a `[`.
  - The slash-hiding strip step that removes bracket tokens whose body does
    not start with an allowed tag name.
  - The path → (name, url) helper.
  - The per-content step over the WordPress global tag table. This step
    saves the table, swaps it, enqueues the detected tags' assets and
    restores it. The table lives in the class `Host`.

Two support modules hold the shared vocabulary. `php_arrays.dfy` models
PHP's ordered arrays: a sequence of key/value pairs with PHP's
overwrite-in-place assignment and `array_merge`. `strings.dfy` models
`explode`/`end` and `str_replace`.

WordPress and PHP facilities the plugin calls become inputs:

- `glob`, `get_template_directory` and the `shortcode_inserter_glob_paths`
  filter are the fields of `ShortcodeManager.Site`;
- `get_option` is a function parameter;
- `get_file_data` is the `readHeaders` parameter;
- the `shortcode_inserter_register_shortcode` filter result is the
  `filtered` parameter;
- `do_shortcode` is the `doShortcode` parameter;
- `ABSPATH` is the `abspath` parameter;
- the two `md5(microtime())` sentinels are the fresh characters `h1`
  and `h2`.

## Model

| member | source | states |
|---|---|---|
| `ShortcodeManager.ShortcodeName` | includes/class-shortcode-inserter-shortcode-manager.php:177-185 | the name of a path contains neither `/` nor `.` |
| `ShortcodeManager.ShortcodeNameIsSegmentPrefix` | includes/class-shortcode-inserter-shortcode-manager.php:179-183 | the name starts where the last `/`-separated segment starts and ends at a `.` or at the end of the path: it is that segment's part before its first `.` |
| `ShortcodeManager.GetGlobRegexList` | includes/class-shortcode-inserter-shortcode-manager.php:154-168 | the pattern list has the filtered default patterns' count and order, each with the extension appended |
| `ShortcodeManager.GetPaths` | includes/class-shortcode-inserter-shortcode-manager.php:124-145 | the loop builds the name-indexed map of the concatenated glob results; the invariant relates every prefix of the path list to the map built so far |
| `ShortcodeManager.IndexByNameLastWins` | includes/class-shortcode-inserter-shortcode-manager.php:135-141 | the map holds, for each name, the last path with that name, and nothing for a name no path has |
| `ShortcodeManager.IndexByNameKeys` | includes/class-shortcode-inserter-shortcode-manager.php:135-141 | the map's keys are the path names in order of first appearance (overwriting keeps a key's position) |
| `ShortcodeManager.IndexByNameCovers` | includes/class-shortcode-inserter-shortcode-manager.php:135-143 | every key is the name of some globbed path, and every globbed path's name is a key |
| `ShortcodeManager.IndexByNameValues` | includes/class-shortcode-inserter-shortcode-manager.php:135-143 | keys are distinct and every entry maps a key k to a path whose name is k |
| `ShortcodeManager.LaterPatternWins` | includes/class-shortcode-inserter-shortcode-manager.php:131-141 | when a name occurs in the second pattern's glob result, the map holds a path of that name from the second pattern, whatever the first pattern found |
| `ShortcodeManager.LastPathWins` | includes/class-shortcode-inserter-shortcode-manager.php:135-141 | for a path of a given name, the map holds that path or a later one of the same name |
| `ShortcodeManager.AllShortcodesShape` | includes/class-shortcode-inserter-shortcode-manager.php:63-73 | the catalog has exactly the buckets `php`, `js`, `css` in that order, built from `.php`, `.js`, `.css` |
| `ShortcodeManager.BucketOfKind` | includes/class-shortcode-inserter-shortcode-manager.php:65-71 | each bucket of the catalog is an array holding the paths of its extension |
| `ShortcodeManager.RemoveDisabledShortcodes` | includes/class-shortcode-inserter-shortcode-manager.php:95-109 | the in-place recursive removal (a loop over the array that recurses into array values and unsets scalar entries with a disabled key) computes the reference removal |
| `ShortcodeManager.GetEnabledShortcodes` | includes/class-shortcode-inserter-shortcode-manager.php:82-115 | the enabled catalog is the catalog with the disabled option's keys removed |
| `ShortcodeManager.FalsyOptionKeepsCatalog` | includes/class-shortcode-inserter-shortcode-manager.php:87-93 | a false, empty or non-array option leaves the catalog unchanged |
| `ShortcodeManager.OnlyOptionKeysMatter` | includes/class-shortcode-inserter-shortcode-manager.php:89-91 | two options with the same keys give the same enabled catalog, whatever their values |
| `ShortcodeManager.ArrayEntriesSurvive` | includes/class-shortcode-inserter-shortcode-manager.php:97-100 | an entry whose value is an array is never removed; its value is the removal applied inside it |
| `ShortcodeManager.FlatRemoval` | includes/class-shortcode-inserter-shortcode-manager.php:101-105 | in a flat array a key is gone iff it is disabled, every other key keeps its value, and the result is a subsequence of the input |
| `ShortcodeManager.BucketsSurvive` | includes/class-shortcode-inserter-shortcode-manager.php:97-106 | an array of arrays keeps all its keys |
| `ShortcodeManager.EnabledBucket` | includes/class-shortcode-inserter-shortcode-manager.php:95-113 | in a flat bucket of the catalog, a key is dropped iff it is disabled, survivors keep their path, and the order is preserved |
| `ShortcodeManager.EnabledBuckets` | includes/class-shortcode-inserter-shortcode-manager.php:82-115 | the enabled catalog still has the buckets `php`, `js`, `css`; in each, a name is absent iff it is a disabled key, every other name keeps its path, and the order is preserved |
| `ShortcodeManager.Manager.constructor` | includes/class-shortcode-inserter-shortcode-manager.php:26-34 | both catalog fields start empty |
| `ShortcodeManager.Manager.GetAllShortcodes` | includes/class-shortcode-inserter-shortcode-manager.php:63-73 | returns the catalog and also stores it in the `allShortcodes` field |
| `ShortcodeManager.Manager.Init` | includes/class-shortcode-inserter-shortcode-manager.php:50-55 | after `init`, the fields hold the catalog and the enabled catalog derived from the stored option |
| `Admin.SanitizeDisabledShortcodes` | admin/class-shortcode-inserter-admin.php:217-241 | the two loops compute the sanitised option for the catalog's `php` names |
| `Admin.RejectedInput` | admin/class-shortcode-inserter-admin.php:219-220 | a non-array, empty or false input sanitises to the empty array |
| `Admin.CleanLookup` | admin/class-shortcode-inserter-admin.php:231-235 | a name is in the output iff it is a catalog name the input sets to a value equal to 1, and its value is then 1 |
| `Admin.CleanEntries` | admin/class-shortcode-inserter-admin.php:231-235 | every output key is a catalog name and every output value is 1 |
| `Admin.CleanKeysInCatalogOrder` | admin/class-shortcode-inserter-admin.php:223-235 | the output keys are the selected names in catalog order, not input order |
| `Admin.CleanSameSelection` | admin/class-shortcode-inserter-admin.php:231-235 | two inputs that select the same catalog names sanitise to the same output |
| `Admin.SanitizeIdempotent` | admin/class-shortcode-inserter-admin.php:217-241 | sanitising a sanitised value gives it back unchanged |
| `Admin.GetShortcodeTinymce` | admin/class-shortcode-inserter-admin.php:248-272 | the menu is `false` iff the enabled `php` bucket is empty; otherwise it has one `{text, content}` item per enabled file, in bucket order |
| `Admin.MenuOmitsDisabled` | admin/class-shortcode-inserter-admin.php:250-262 | no file offered in the menu has a disabled name |
| `ShortcodeText.MentionsFrom` | public/class-shortcode-inserter-public.php:197 | every name the scan collects is non-empty, as `++` demands at least one name character |
| `ShortcodeText.MentionsFromIff` | public/class-shortcode-inserter-public.php:197 | the names the scan collects are exactly the maximal runs of name characters that follow some `[` |
| `ShortcodeText.Intersect` | public/class-shortcode-inserter-public.php:199 | the intersection holds exactly the tag keys that were found, in tag-list order |
| `ShortcodeText.ExtractShortcodes` | public/class-shortcode-inserter-public.php:187-207 | false without a `[` or without tags; otherwise a non-empty list, in tag-list order, of exactly the tag keys mentioned after a `[`; false means no tag is mentioned |
| `ShortcodeText.ActiveShortcodes` | public/class-shortcode-inserter-public.php:158 | the allowed names are the tag keys when the tags are an array, and none otherwise |
| `ShortcodeText.HideSlashesIsHidden` | public/class-shortcode-inserter-public.php:160-164 | the three replacements hide exactly the `/` characters that do not follow a `[` |
| `ShortcodeText.UnhideHidden` | public/class-shortcode-inserter-public.php:160-173 | with fresh sentinels, restoring the slashes gives back the original content |
| `ShortcodeText.StripDisabledShortcodesAsWritten` | public/class-shortcode-inserter-public.php:156-177 | the strip step as written: with fresh sentinels, its result is the original content less the tokens the pass removes; `StripKeepsText` and `StripAgree` are its partners |
| `ShortcodeText.MatchAt` | public/class-shortcode-inserter-public.php:168 | a match starts at a `[`, ends just after a `]` at least two characters later, and its body does not start with an active tag name |
| `ShortcodeText.ScanFrom` | public/class-shortcode-inserter-public.php:168-170 | the leftmost, non-overlapping replacement pass only removes: its result is no longer than the text it scans |
| `ShortcodeText.StripKeepsText` | public/class-shortcode-inserter-public.php:156-177 | with fresh sentinels, the strip result is the original content with only the matched tokens cut out |
| `ShortcodeText.StripWithoutBracket` | public/class-shortcode-inserter-public.php:156-177 | content with no `[` comes back unchanged, every `/` included |
| `ShortcodeText.StripAgree` | public/class-shortcode-inserter-public.php:166-171 | on content where no `[` is followed by another `[` before the next `]`, the strip step as written and the corrected strip return the same text |
| `ShortcodeText.KeptTokenSurvivesAsWritten` | public/class-shortcode-inserter-public.php:166-168 | as written, on content without nested openings: a `[...]` or `[/...]` token whose body starts with an allowed name is kept verbatim, slashes included, and the text before and after is stripped independently |
| `ShortcodeText.DisabledTokenRemovedAsWritten` | public/class-shortcode-inserter-public.php:166-168 | as written, on content without nested openings: a non-empty token whose body does not start with an allowed name is removed, and the text on either side is kept and stripped independently |
| `ShortcodeText.NoTagsRemovesEveryTokenAsWritten` | public/class-shortcode-inserter-public.php:169-171 | as written, on content without nested openings: with no allowed names every non-empty token is removed |
| `ShortcodeText.KeepTokenBetweenAsWritten` | public/class-shortcode-inserter-public.php:166-168 | as written: a kept token between two texts stays between the stripped texts, when the joined text has no nested openings |
| `ShortcodeText.DropTokenBetweenAsWritten` | public/class-shortcode-inserter-public.php:166-168 | as written: a removed token between two texts leaves the two stripped texts joined, when the joined text has no nested openings |
| `ShortcodeText.StripExampleAsWritten` | public/class-shortcode-inserter-public.php:156-177 | as written, with `kept` allowed, `[kept]A[/kept][dropped]B[/dropped]` becomes `[kept]A[/kept]B` |
| `ShortcodeText.KeptTokenSurvives` | public/class-shortcode-inserter-public.php:168 | corrected strip (the corrected member of the finding): a token whose body starts with an allowed name is kept verbatim on any content, and the text before and after is stripped independently |
| `ShortcodeText.DisabledTokenRemoved` | public/class-shortcode-inserter-public.php:168 | corrected strip: a non-empty token whose body does not start with an allowed name is removed, and the text on either side is stripped independently, on any content |
| `ShortcodeText.NoTagsRemovesEveryToken` | public/class-shortcode-inserter-public.php:168-171 | corrected strip: with no allowed names every non-empty token is removed |
| `ShortcodeText.KeepTokenBetween` | public/class-shortcode-inserter-public.php:168 | corrected strip: a kept token between two texts stays between the stripped texts |
| `ShortcodeText.DropTokenBetween` | public/class-shortcode-inserter-public.php:168 | corrected strip: a removed token between two texts leaves the two stripped texts joined |
| `ShortcodeText.PlainTextKept` | public/class-shortcode-inserter-public.php:156-177 | with `kept` allowed, text without a `[` is unchanged, by both strips |
| `ShortcodeText.StripExample` | public/class-shortcode-inserter-public.php:168 | corrected strip: with `kept` allowed, `[kept]A[/kept][dropped]B[/dropped]` becomes `[kept]A[/kept]B` |
| `ShortcodeText.LoneBracketKept` | public/class-shortcode-inserter-public.php:168 | a lone `[` is not a token and is kept, by both strips |
| `ShortcodeText.AsWrittenSwallowsEscaped` | public/class-shortcode-inserter-public.php:168 | as written, `[[kept]]` with `kept` allowed strips to `]` |
| `ShortcodeText.CorrectedKeepsEscaped` | public/class-shortcode-inserter-public.php:168 | with the bracket-free body, `[[kept]]` is kept whole |
| `ShortcodeText.KeptTokenSwallowed` | public/class-shortcode-inserter-public.php:168 | on `[[kept]]` the as-written strip and the corrected strip disagree: `]` against the unchanged content |
| `ShortcodeText.ProseBeforeTokenSwallowed` | public/class-shortcode-inserter-public.php:168-171 | with no tags, the strip step as written turns `[x [d]` into nothing, while the corrected strip keeps `[x ` |
| `Public.GetEnqueueObject` | public/class-shortcode-inserter-public.php:247-257 | the asset name has no `/` and uses only characters of the path |
| `Public.EnqueueNameIsCatalogName` | public/class-shortcode-inserter-public.php:251-253 | for a file `dir/n.ext` with a plain name n, the asset name and the catalog name are both n |
| `Public.DottedNameDiverges` | public/class-shortcode-inserter-public.php:251-253 | for `foo.min.js` the asset name is `foo.min` while the catalog name is `foo` |
| `Public.EnqueueUrlRelative` | public/class-shortcode-inserter-public.php:249 | a path under `ABSPATH` gets the site-relative url `/` + the rest of the path |
| `Public.StylesFor` | public/class-shortcode-inserter-public.php:76-84 | one style registration per enabled `css` file, in bucket order, with handle `<plugin>_<name>`, no dependencies, version `0.1.0`, media `false` |
| `Public.ScriptsFor` | public/class-shortcode-inserter-public.php:95-103 | one script registration per enabled `js` file, in bucket order, depending on `jquery`, version `0.1.0`, in the footer |
| `Public.Handles` | public/class-shortcode-inserter-public.php:131-136 | one handle `<plugin>_<name>` per detected tag, in order |
| `Public.Host.constructor` | public/class-shortcode-inserter-public.php:115 | a host starts with the given tag table and nothing registered, enqueued or filtered |
| `Public.Host.RemoveAllShortcodes` | public/class-shortcode-inserter-public.php:119 | empties the tag table and changes nothing else |
| `Public.Host.AddShortcode` | public/class-shortcode-inserter-public.php:220 | sets one tag, overwriting in place, and changes nothing else |
| `Public.Host.AddFilter` | public/class-shortcode-inserter-public.php:217 | records one filter and changes nothing else |
| `Public.Host.RegisterStyle` | public/class-shortcode-inserter-public.php:82 | appends one style registration and changes nothing else |
| `Public.Host.RegisterScript` | public/class-shortcode-inserter-public.php:101 | appends one script registration and changes nothing else |
| `Public.Host.EnqueueBoth` | public/class-shortcode-inserter-public.php:133-134 | enqueues one handle as a script and as a style and changes nothing else |
| `Public.PublicHooks.constructor` | public/class-shortcode-inserter-public.php:46-52 | the hooks keep the plugin name, version and manager they were given |
| `Public.PublicHooks.EnqueueStyles` | public/class-shortcode-inserter-public.php:74-86 | registers the styles of the enabled `css` bucket, in order, and changes nothing else |
| `Public.PublicHooks.EnqueueScripts` | public/class-shortcode-inserter-public.php:93-105 | registers the scripts of the enabled `js` bucket, in order, and changes nothing else |
| `Public.PublicHooks.RegisterShortcodes` | public/class-shortcode-inserter-public.php:215-223 | the tag table becomes the old table with the filtered tags merged in; the `widget_text` filter is added |
| `Public.PublicHooks.EnqueueLoaded` | public/class-shortcode-inserter-public.php:129-138 | enqueues the script and style handle of every detected tag, in order, and nothing else |
| `Public.PublicHooks.ProcessShortcodes` | public/class-shortcode-inserter-public.php:113-146 | on return the tag table is restored; the output is `do_shortcode`, under the plugin's tags, of the content stripped against the union of the original and plugin tags; one handle per detected tag is enqueued as a script and as a style |
| `Public.DetectionUsesPluginTags` | public/class-shortcode-inserter-public.php:121-123 | a tag is detected iff the plugin registered it and it is mentioned after a `[`; tags known only to the original table are never detected |
| `Public.StripAllowsBothTables` | public/class-shortcode-inserter-public.php:125-127 | the strip step allows a name iff it is a key of the original table or of the plugin's tags |
| `Public.NoBracketNoWork` | public/class-shortcode-inserter-public.php:123-138 | content without a `[` enqueues nothing and reaches `do_shortcode` unchanged |
| `PhpArrays.MergeIntoEmpty` | public/class-shortcode-inserter-public.php:219-221 | registering distinct filtered tags into the emptied table gives exactly the filtered array |
| `PhpArrays.Merge` | public/class-shortcode-inserter-public.php:125 | `array_merge`: the keys are those of both arrays, a key absent from the second array keeps the first array's value, and distinct keys stay distinct |
| `PhpArrays.MergeLookupLast` | public/class-shortcode-inserter-public.php:125 | in `array_merge`, a key of the second array takes the second array's value |

## Left out

- Bootstrap and hook wiring: the loader, the update checker and the plugin
  constants. These are WordPress registration with no logic of their own.
- The admin screens: settings page, section and field registration, the
  checkbox HTML, the JSON echo of the global JS object, the TinyMCE button
  registration, the action links and the TinyMCE menu script.
- The `require` of every enabled PHP file when the public side starts
  (public/class-shortcode-inserter-public.php:59-67). Those files are what
  hook into the `shortcode_inserter_register_shortcode` filter, so the
  model's `filtered` array (the filter's result) is a free parameter. It is
  not tied to the enabled catalog, and no lemma follows a disabled file all
  the way to the stripping of its tokens.
- `get_file_data` header parsing happens inside WordPress. The menu is stated
  in terms of whatever header the `readHeaders` parameter returns.
- `do_shortcode` and the `widget_text` filter are foreign. `do_shortcode` is a
  parameter, and `add_filter` is only recorded in `Host.filters`.
- WordPress's own checks in `add_shortcode` (name validation) and the
  de-duplication in `wp_register_*`/`wp_enqueue_*` are not modelled. `Host`
  records every call in order.
- `Admin.CleanLookup`: PHP's loose `1 == $value` is modelled for integers,
  booleans and strings by `PhpArrays.LooselyEqualsOne`, which accepts
  `Int(1)`, `Bool(true)` and the string `"1"` only. Numeric strings such as
  `"01"` or `"1.0"` and floats are not covered.
- PHP's coercion of numeric-string keys to integers is not modelled, so
  `array_merge` never renumbers. Keys are strings throughout.
- `ShortcodeManager.RemoveDisabledShortcodes`: the source's `in_array($key, $keys)`
  (includes/class-shortcode-inserter-shortcode-manager.php:95-109) compares
  loosely, so two numeric strings such as `"1e1"` and `"10"` match. The
  model compares keys exactly.
- `ShortcodeText.KeptTokenSurvives`: the tag names are assumed to contain no
  regex metacharacters, no `[` and no `/`. The source interpolates them
  unescaped into the pattern, so a name with `|`, `(` or `.` changes the
  pattern itself.
- `ShortcodeText.KeptTokenSurvivesAsWritten`: the same assumption on tag
  names, and the content must have no `[` followed by another `[` before the
  next `]`. On other content the source's strip can remove an allowed tag
  (see "## Findings").
- `ShortcodeText.StripKeepsText`: the two `md5(microtime())` sentinels are
  single fresh characters. This is a precondition that neither occurs in the
  content. A 32-character sentinel could also occur across a boundary, and
  the model does not capture that. The source's sentinel for `/` is a
  lowercase hex string, and the pattern's lookahead reads it. With `b`
  allowed, `[//x]` is kept whenever that sentinel starts with `b` (one time
  in sixteen), and with `ab` allowed the same holds for `[a/x]`. `Fresh`
  requires that no tag name contain the sentinel, so the model always
  removes both.
- PHP strings are bytes, and the model works on characters. For the ASCII
  punctuation the patterns test, the two agree.
- A `preg_replace` failure (which returns `null`) and `glob` errors (which
  return `false`) are not modelled.
- `Public.PublicHooks.ProcessShortcodes`: the tag table is restored only on
  normal return. The source has no `try`/`finally`, and an exception raised
  inside `do_shortcode` would leave the plugin's table in place. Also,
  `doShortcode` is a pure function parameter. The ensures clauses on the
  enqueued handles, styles, scripts and filters hold only for shortcode
  handlers that change no WordPress state.
- `ShortcodeManager.GetEnabledShortcodes`: the source declares the named
  function `remove_disabled_shortcodes` inside the method. A second call in
  the same request is a fatal "cannot redeclare" error, and the model lets
  the method run any number of times.

## Findings

| source | as written | input that shows it | evidently intended | confidence | as-written member | corrected member |
|---|---|---|---|---|---|---|
| public/class-shortcode-inserter-public.php:168 | the token body `[^/\]]+` may contain `[`, so a match that starts at one `[` can run over a later `[` and swallow an allowed tag | allowed tags {`kept`}, content `[[kept]]`: the match starts at the first `[` (whose body `[kept` does not start with `kept`) and removes `[[kept]`, leaving `]` | a body that stops at the next `[` (`[^/\]\[]+`), so that an allowed tag is never removed; `[[kept]]` is then kept | not executed | `ShortcodeText.AsWrittenSwallowsEscaped` | `ShortcodeText.KeptTokenSurvives` |

`ShortcodeText.StripDisabledShortcodesAsWritten` is the strip step with the
source's body class, and `Public.PublicHooks.ProcessShortcodes` uses it, as
the source does. `ShortcodeText.StripDisabledShortcodes` is the corrected
step. The two return the same text on content where no `[` is followed by
another `[` before the next `]` (`ShortcodeText.StripAgree`). The lemmas
about what the strip step as written keeps and removes carry that
hypothesis. Without it they fail: the same cause also removes prose in front
of a later token, and `[x [d]` strips to nothing
(`ShortcodeText.ProseBeforeTokenSwallowed`).

A second divergence is documented rather than corrected, because nothing in
the source says which name is meant. The catalog name of a file cuts at its
first `.`. The asset name `get_enqueue_object` gives the same file only
removes `.ext`. So for `foo.min.js` the registered handle is
`<plugin>_foo.min`, while the enqueue step uses the detected tag `foo`
(`Public.DottedNameDiverges`).
