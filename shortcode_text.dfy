/**
 * The text processing of the public side: which registered tags a post
 * mentions (`extract_shortcodes`), and the removal of bracketed tokens whose
 * name is not registered (`strip_disabled_shortcodes`).
 *
 * The strip step hides every `/` that is not part of `[/` behind a sentinel
 * character, deletes with one leftmost, non-overlapping regular-expression
 * pass every `[` or `[/` token whose body does not start with an allowed
 * name, and turns the sentinels back into `/`. The regular expression is
 * modelled by `MatchAt`, which says where a match starting at a given
 * position ends, and the pass by `ScanFrom`.
 */
module ShortcodeText {
  import opened PhpArrays
  import opened Strings

  // ---------------------------------------------------------------------
  // Finding the tags a post mentions
  // ---------------------------------------------------------------------

  /** A character of a tag name: not one of `<>&/[]=` and not a control character or a space. */
  predicate NameChar(ch: char) {
    ch !in "<>&/[]=" && ch as int > 0x20
  }

  /** The end of the run of name characters that starts at `q`. */
  function NameEnd(c: string, q: nat): (e: nat)
    requires q <= |c|
    ensures q <= e <= |c|
    ensures forall i :: q <= i < e ==> NameChar(c[i])
    ensures e == |c| || !NameChar(c[e])
    decreases |c| - q
  {
    if q == |c| || !NameChar(c[q]) then q else NameEnd(c, q + 1)
  }

  /** A `[` at `i` followed by at least one name character, `n` being the whole run. */
  predicate MentionAt(c: string, i: int, n: string) {
    0 <= i && i + 1 < |c| && c[i] == '[' && NameChar(c[i + 1]) && n == c[i + 1..NameEnd(c, i + 1)]
  }

  /**
   * The captured names of `preg_match_all('@\[([^<>&/\[\]\x00-\x20=]++)@')`
   * from position `p` on: scan left to right, and after a match go on
   * after it.
   */
  function MentionsFrom(c: string, p: nat): (ns: seq<string>)
    requires p <= |c|
    ensures forall n :: n in ns ==> n != []
    decreases |c| - p
  {
    if p + 1 >= |c| then []
    else if c[p] == '[' && NameChar(c[p + 1]) then
      var e := NameEnd(c, p + 1);
      [c[p + 1..e]] + MentionsFrom(c, e)
    else MentionsFrom(c, p + 1)
  }

  /** The scan finds a name exactly when some `[` in the text is followed by it as a maximal run. */
  lemma {:induction false} MentionsFromIff(c: string, p: nat, n: string)
    requires p <= |c|
    ensures n in MentionsFrom(c, p) <==> exists i :: p <= i && MentionAt(c, i, n)
    decreases |c| - p
  {
    if p + 1 >= |c| {
      assert forall i :: p <= i ==> !MentionAt(c, i, n);
    } else if c[p] == '[' && NameChar(c[p + 1]) {
      var e := NameEnd(c, p + 1);
      var first := c[p + 1..e];
      assert MentionsFrom(c, p) == [first] + MentionsFrom(c, e);
      MentionsFromIff(c, e, n);
      if n in MentionsFrom(c, p) {
        if n == first {
          assert MentionAt(c, p, n);
        } else {
          assert n in MentionsFrom(c, e);
        }
      }
      assert forall j :: p < j < e ==> c[j] != '[';
      if exists i :: p <= i && MentionAt(c, i, n) {
        var i :| p <= i && MentionAt(c, i, n);
        if i == p {
          assert n == first;
        } else {
          assert e <= i;
        }
      }
    } else {
      MentionsFromIff(c, p + 1, n);
      assert !MentionAt(c, p, n);
      assert MentionsFrom(c, p) == MentionsFrom(c, p + 1);
    }
  }

  /** `array_intersect($keys, $found)`: the keys that were found, in key order. */
  function Intersect(keys: seq<string>, found: seq<string>): (r: seq<string>)
    ensures forall n :: n in r <==> n in keys && n in found
    ensures IsSubsequence(r, keys)
  {
    if keys == [] then []
    else
      var rest := Intersect(keys[1..], found);
      if keys[0] in found then
        var r := [keys[0]] + rest;
        assert r[1..] == rest;
        r
      else rest
  }

  /**
   * `extract_shortcodes`: the registered tags the content mentions, in
   * tag-list order, or PHP `false` (`None`) when the content has no `[`,
   * the tag list is empty or not an array, or no tag is mentioned.
   */
  function ExtractShortcodes(content: string, tags: PhpValue): (r: Option<seq<string>>)
    ensures '[' !in content ==> r == None
    ensures !tags.Arr? || tags.entries == [] ==> r == None
    ensures r.Some? ==> tags.Arr? && r.value != []
    ensures r.Some? ==> forall n :: n in r.value <==>
                          n in Keys(tags.entries) && exists i :: MentionAt(content, i, n)
    ensures r.Some? ==> IsSubsequence(r.value, Keys(tags.entries))
    ensures r == None && '[' in content && tags.Arr? && tags.entries != [] ==>
              forall n :: n in Keys(tags.entries) ==> !exists i :: MentionAt(content, i, n)
  {
    if '[' !in content then None
    else if !tags.Arr? || !Truthy(tags) then None
    else
      var found := MentionsFrom(content, 0);
      var loaded := Intersect(Keys(tags.entries), found);
      assert forall n :: n in found <==> exists i :: MentionAt(content, i, n) by {
        forall n ensures n in found <==> exists i :: MentionAt(content, i, n) {
          MentionsFromIff(content, 0, n);
        }
      }
      if loaded == [] then None else Some(loaded)
  }

  // ---------------------------------------------------------------------
  // Hiding the slashes
  // ---------------------------------------------------------------------

  /**
   * The three `str_replace` calls: `[/` to the first sentinel, every
   * remaining `/` to the second, and the first sentinel back to `[/`.
   */
  function HideSlashes(c: string, h1: char, h2: char): string {
    ReplaceAll(ReplaceAll(ReplaceAll(c, "[/", [h1]), "/", [h2]), [h1], "[/")
  }

  /** Reference for `HideSlashes`: every `/` that does not follow a `[` becomes `h2`. */
  function Hidden(c: string, h2: char): (t: string)
    ensures |t| == |c|
  {
    seq(|c|, i requires 0 <= i < |c| => if c[i] == '/' && !(i > 0 && c[i - 1] == '[') then h2 else c[i])
  }

  /** The last `str_replace`: every second sentinel back to `/`. */
  function Unhide(t: string, h2: char): string {
    ReplaceAll(t, [h2], "/")
  }

  // ---------------------------------------------------------------------
  // The removal pass
  // ---------------------------------------------------------------------

  /**
   * The lookahead `(?!(?:k1|k2|...))` fails at `q`: one of the
   * alternatives, tried in order, starts there.
   */
  predicate AllowedAt(names: seq<string>, t: string, q: nat)
    decreases |names|
  {
    names != [] && (StartsAt(names[0], t, q) || AllowedAt(names[1..], t, q))
  }

  /** The alternation holds exactly when some allowed name starts at `q`. */
  lemma {:induction false} AllowedAtSome(names: seq<string>, t: string, q: nat)
    ensures AllowedAt(names, t, q) <==> exists k :: k in names && StartsAt(k, t, q)
    decreases |names|
  {
    if names != [] {
      AllowedAtSome(names[1..], t, q);
      assert forall k :: k in names <==> k == names[0] || k in names[1..];
    }
  }

  /** Two places where every allowed name starts alike agree on the lookahead. */
  lemma {:induction false} AllowedAtSame(names: seq<string>, t: string, q: nat, u: string, r: nat)
    requires forall k :: k in names ==> (StartsAt(k, t, q) <==> StartsAt(k, u, r))
    ensures AllowedAt(names, t, q) <==> AllowedAt(names, u, r)
    decreases |names|
  {
    if names != [] {
      assert names[0] in names;
      AllowedAtSame(names[1..], t, q, u, r);
    }
  }

  /**
   * A character of a token's body: `[^/\]]` as written, and `[^/\]\[]`
   * when `noBracket` is set.
   */
  predicate BodyChar(ch: char, noBracket: bool) {
    ch != '/' && ch != ']' && !(noBracket && ch == '[')
  }

  /** The end of the longest run of body characters from `q`. */
  function BodyEnd(t: string, q: nat, noBracket: bool): (e: nat)
    requires q <= |t|
    ensures q <= e <= |t|
    ensures forall i :: q <= i < e ==> BodyChar(t[i], noBracket)
    ensures e == |t| || !BodyChar(t[e], noBracket)
    decreases |t| - q
  {
    if q == |t| || !BodyChar(t[q], noBracket) then q else BodyEnd(t, q + 1, noBracket)
  }

  /** Where the body of a token starting at `p` begins: after `[/` or after `[`. */
  function BodyStart(t: string, p: nat): nat {
    if p + 1 < |t| && t[p + 1] == '/' then p + 2 else p + 1
  }

  /**
   * The pattern `(?:\[/?)(?!(?:names))BODY+/?\]` tried at `p`: the end of
   * the match, or None. Backtracking is resolved: giving up the optional
   * `/` after `[` leaves a `/` where the body must start, and a shorter
   * body leaves a body character where `/?\]` must match, so the greedy
   * choices are the only ones that can succeed.
   */
  function MatchAt(t: string, p: nat, names: seq<string>, noBracket: bool): (r: Option<nat>)
    requires p < |t|
    ensures r.Some? ==> t[p] == '[' && p + 2 < r.value <= |t| && t[r.value - 1] == ']'
    ensures r.Some? ==> !AllowedAt(names, t, BodyStart(t, p))
  {
    if t[p] != '[' then None
    else
      var q := BodyStart(t, p);
      if AllowedAt(names, t, q) then None
      else
        var e := BodyEnd(t, q, noBracket);
        if e == q then None
        else if e < |t| && t[e] == ']' then Some(e + 1)
        else if e + 1 < |t| && t[e] == '/' && t[e + 1] == ']' then Some(e + 2)
        else None
  }

  /** `preg_replace` of the pattern by the empty string, from position `p` on. */
  function ScanFrom(t: string, p: nat, names: seq<string>, noBracket: bool): (r: string)
    requires p <= |t|
    ensures |r| <= |t| - p
    decreases |t| - p
  {
    if p == |t| then []
    else
      match MatchAt(t, p, names, noBracket)
      case Some(e) => ScanFrom(t, e, names, noBracket)
      case None => [t[p]] + ScanFrom(t, p + 1, names, noBracket)
  }

  /**
   * The same pass read on the original text: the matches are decided on the
   * hidden text `t`, and each character that no match removes is emitted
   * from `c`.
   */
  function KeptFrom(c: string, t: string, p: nat, names: seq<string>, noBracket: bool): (r: string)
    requires |c| == |t| && p <= |t|
    ensures |r| <= |t| - p
    decreases |t| - p
  {
    if p == |t| then []
    else
      match MatchAt(t, p, names, noBracket)
      case Some(e) => KeptFrom(c, t, e, names, noBracket)
      case None => [c[p]] + KeptFrom(c, t, p + 1, names, noBracket)
  }

  /** `$active_shortcodes`: the keys of the tag list, or none when it is empty or not an array. */
  function ActiveShortcodes(tags: PhpValue): (names: seq<string>)
    ensures tags.Arr? ==> names == Keys(tags.entries)
    ensures !tags.Arr? ==> names == []
  {
    if tags.Arr? && Truthy(tags) then Keys(tags.entries) else []
  }

  /**
   * `strip_disabled_shortcodes` with the body class chosen by `noBracket`.
   * The source builds a pattern without a lookahead when there are no
   * active names; that pattern is the lookahead over the empty list of
   * names, so one scan over `names` covers both of its branches.
   */
  function StripWith(content: string, tags: PhpValue, h1: char, h2: char, noBracket: bool): string {
    var names := ActiveShortcodes(tags);
    var t := HideSlashes(content, h1, h2);
    Unhide(ScanFrom(t, 0, names, noBracket), h2)
  }

  /** `strip_disabled_shortcodes` as written: the token body is `[^/\]]+`, which may contain `[`. */
  function StripDisabledShortcodesAsWritten(content: string, tags: PhpValue, h1: char, h2: char): (r: string)
    // With fresh sentinels, the result is the original text less the tokens the pass removes.
    ensures Fresh(content, ActiveShortcodes(tags), h1, h2) ==>
      r == KeptFrom(content, Hidden(content, h2), 0, ActiveShortcodes(tags), false)
  {
    if Fresh(content, ActiveShortcodes(tags), h1, h2) then
      StripKeepsText(content, tags, h1, h2, false);
      StripWith(content, tags, h1, h2, false)
    else
      StripWith(content, tags, h1, h2, false)
  }

  /** `strip_disabled_shortcodes` with the token body `[^/\]\[]+`, which stops at the next `[`. */
  function StripDisabledShortcodes(content: string, tags: PhpValue, h1: char, h2: char): (r: string)
    // With fresh sentinels, the result is the original text less the tokens the pass removes.
    ensures Fresh(content, ActiveShortcodes(tags), h1, h2) ==>
      r == KeptFrom(content, Hidden(content, h2), 0, ActiveShortcodes(tags), true)
  {
    if Fresh(content, ActiveShortcodes(tags), h1, h2) then
      StripKeepsText(content, tags, h1, h2, true);
      StripWith(content, tags, h1, h2, true)
    else
      StripWith(content, tags, h1, h2, true)
  }

  // ---------------------------------------------------------------------
  // The sentinels
  // ---------------------------------------------------------------------

  /**
   * The sentinels are fresh: distinct, absent from the content and from the
   * allowed names, and none of `[`, `/`, `]`.
   */
  predicate Fresh(c: string, names: seq<string>, h1: char, h2: char) {
    && h1 != h2 && h1 !in "[/]" && h2 !in "[/]"
    && h1 !in c && h2 !in c
    && forall k :: k in names ==> h2 !in k
  }

  /** Hiding looks at one character and the one before it. */
  lemma HiddenTail(c: string, h2: char, n: nat)
    requires 0 < n <= |c| && !(c[n - 1] == '[' && n < |c| && c[n] == '/')
    ensures Hidden(c, h2)[n..] == Hidden(c[n..], h2)
  {
  }

  /** With a fresh first sentinel, the three replacements hide exactly the slashes not after `[`. */
  lemma {:induction false} HideSlashesIsHidden(c: string, h1: char, h2: char)
    requires h1 != h2 && h1 != '/' && h1 !in c
    ensures HideSlashes(c, h1, h2) == Hidden(c, h2)
    decreases |c|
  {
    if c == [] {
    } else if |c| >= 2 && c[0] == '[' && c[1] == '/' {
      HidePair(c, h1, h2);
      HideSlashesIsHidden(c[2..], h1, h2);
      HiddenTail(c, h2, 2);
      assert Hidden(c, h2) == "[/" + Hidden(c, h2)[2..];
    } else {
      HideOne(c, h1, h2);
      HideSlashesIsHidden(c[1..], h1, h2);
      HiddenTail(c, h2, 1);
      assert Hidden(c, h2) == [Hidden(c, h2)[0]] + Hidden(c, h2)[1..];
    }
  }

  lemma HidePair(c: string, h1: char, h2: char)
    requires h1 != '/' && |c| >= 2 && c[0] == '[' && c[1] == '/'
    ensures HideSlashes(c, h1, h2) == "[/" + HideSlashes(c[2..], h1, h2)
  {
    assert c[..2] == "[/";
    ReplaceAtFront(c, "[/", [h1]);
    var a := ReplaceAll(c[2..], "[/", [h1]);
    ReplaceCharCons(h1, a, '/', [h2]);
    var b := ReplaceAll(a, "/", [h2]);
    ReplaceCharCons(h1, b, h1, "[/");
  }

  lemma HideOne(c: string, h1: char, h2: char)
    requires h1 != h2 && h1 != '/' && c != [] && c[0] != h1
    requires !(|c| >= 2 && c[0] == '[' && c[1] == '/')
    ensures HideSlashes(c, h1, h2) == [if c[0] == '/' then h2 else c[0]] + HideSlashes(c[1..], h1, h2)
  {
    if |c| >= 2 {
      assert c[..2][0] == c[0] && c[..2][1] == c[1];
    }
    KeepFront(c, "[/", [h1]);
    var a := ReplaceAll(c[1..], "[/", [h1]);
    ReplaceCharCons(c[0], a, '/', [h2]);
    var b := ReplaceAll(a, "/", [h2]);
    var x := if c[0] == '/' then h2 else c[0];
    ReplaceCharCons(x, b, h1, "[/");
  }

  /** `t` is `c` with some `/` characters replaced by `h2`, and nothing else changed. */
  predicate HidesOnlySlashes(c: string, t: string, h2: char) {
    |c| == |t| && forall i :: 0 <= i < |t| ==> if t[i] == h2 then c[i] == '/' else c[i] == t[i]
  }

  lemma HiddenHidesOnlySlashes(c: string, h2: char)
    requires h2 !in c
    ensures HidesOnlySlashes(c, Hidden(c, h2), h2)
  {
  }

  /** Sentinel round-trip: restoring the slashes gives back the content. */
  lemma UnhideHidden(c: string, h1: char, h2: char)
    requires h1 != h2 && h1 != '/' && h1 !in c && h2 !in c
    ensures Unhide(HideSlashes(c, h1, h2), h2) == c
  {
    HideSlashesIsHidden(c, h1, h2);
    var t := Hidden(c, h2);
    ReplaceCharAt(t, h2, '/');
  }

  /** Restoring the slashes in what the pass keeps gives the kept characters of the content. */
  lemma {:induction false} UnhideScan(c: string, t: string, h2: char, p: nat, names: seq<string>, noBracket: bool)
    requires HidesOnlySlashes(c, t, h2) && p <= |t|
    ensures Unhide(ScanFrom(t, p, names, noBracket), h2) == KeptFrom(c, t, p, names, noBracket)
    decreases |t| - p
  {
    if p < |t| {
      match MatchAt(t, p, names, noBracket)
      case Some(e) =>
        UnhideScan(c, t, h2, e, names, noBracket);
      case None =>
        UnhideScan(c, t, h2, p + 1, names, noBracket);
        ReplaceCharCons(t[p], ScanFrom(t, p + 1, names, noBracket), h2, "/");
    }
  }

  /**
   * With fresh sentinels the strip step returns exactly the characters of
   * the content that no match removes, every `/` included; the matches are
   * found on the content with its lone slashes hidden.
   */
  lemma StripKeepsText(c: string, tags: PhpValue, h1: char, h2: char, noBracket: bool)
    requires Fresh(c, ActiveShortcodes(tags), h1, h2)
    ensures StripWith(c, tags, h1, h2, noBracket) == KeptFrom(c, Hidden(c, h2), 0, ActiveShortcodes(tags), noBracket)
  {
    HideSlashesIsHidden(c, h1, h2);
    HiddenHidesOnlySlashes(c, h2);
    UnhideScan(c, Hidden(c, h2), h2, 0, ActiveShortcodes(tags), noBracket);
  }

  /** Where the hidden text has no `[` from `p` on, nothing is removed. */
  lemma {:induction false} KeptWithoutBracket(c: string, t: string, p: nat, names: seq<string>, noBracket: bool)
    requires |c| == |t| && p <= |t|
    requires forall i :: p <= i < |t| ==> t[i] != '['
    ensures KeptFrom(c, t, p, names, noBracket) == c[p..]
    decreases |t| - p
  {
    if p < |t| {
      KeptWithoutBracket(c, t, p + 1, names, noBracket);
      assert c[p..] == [c[p]] + c[p + 1..];
    }
  }

  /** Content without `[` comes back unchanged. */
  lemma StripWithoutBracket(c: string, tags: PhpValue, h1: char, h2: char, noBracket: bool)
    requires Fresh(c, ActiveShortcodes(tags), h1, h2)
    requires '[' !in c
    ensures StripWith(c, tags, h1, h2, noBracket) == c
  {
    StripKeepsText(c, tags, h1, h2, noBracket);
    KeptWithoutBracket(c, Hidden(c, h2), 0, ActiveShortcodes(tags), noBracket);
  }

  // ---------------------------------------------------------------------
  // Tokens
  // ---------------------------------------------------------------------

  /**
   * `c[p..e+1]` is one bracketed token: `[` (or `[/`), then text holding no
   * bracket, then `]`.
   */
  predicate TokenAt(c: string, p: nat, e: nat) {
    p < e < |c| && c[p] == '[' && c[e] == ']'
    && forall i :: p < i < e ==> c[i] != '[' && c[i] != ']'
  }

  /** Tag names as WordPress accepts them contain neither `[` nor `/`. */
  predicate PlainNames(names: seq<string>) {
    forall k :: k in names ==> '[' !in k && '/' !in k
  }

  /** In the hidden text a `/` only ever follows a `[`. */
  predicate SlashesAfterBracket(t: string) {
    forall i :: 0 <= i < |t| && t[i] == '/' ==> i > 0 && t[i - 1] == '['
  }

  lemma HiddenSlashes(c: string, h2: char)
    requires h2 !in "[/]"
    ensures SlashesAfterBracket(Hidden(c, h2))
  {
    var t := Hidden(c, h2);
    forall i | 0 <= i < |t| && t[i] == '/' ensures i > 0 && t[i - 1] == '[' {
      assert c[i - 1] == '[';
    }
  }

  /** Hiding a prefix is the prefix of the hidden text. */
  lemma HiddenPrefix(c: string, h2: char, n: nat)
    requires n <= |c|
    ensures Hidden(c, h2)[..n] == Hidden(c[..n], h2)
  {
  }

  /** Hidden slashes do not change which allowed names start where. */
  lemma AllowedHidden(c: string, t: string, h2: char, names: seq<string>, q: nat)
    requires HidesOnlySlashes(c, t, h2)
    requires forall k :: k in names ==> '/' !in k && h2 !in k
    ensures AllowedAt(names, t, q) <==> AllowedAt(names, c, q)
  {
    forall k | k in names ensures StartsAt(k, t, q) <==> StartsAt(k, c, q) {
      if q + |k| <= |t| {
        if StartsAt(k, t, q) {
          forall i | q <= i < q + |k| ensures c[i] == t[i] {
            assert t[i] == k[i - q];
          }
          assert c[q..q + |k|] == t[q..q + |k|];
        }
        if StartsAt(k, c, q) {
          forall i | q <= i < q + |k| ensures c[i] == t[i] {
            assert c[i] == k[i - q];
          }
          assert c[q..q + |k|] == t[q..q + |k|];
        }
      }
    }
    AllowedAtSame(names, t, q, c, q);
  }

  /**
   * At a token the pattern matches, up to and including the `]`, exactly
   * when its body is not empty and does not start with an allowed name.
   */
  lemma MatchAtToken(t: string, p: nat, e: nat, names: seq<string>, noBracket: bool)
    requires TokenAt(t, p, e) && SlashesAfterBracket(t)
    ensures BodyStart(t, p) <= e
    ensures MatchAt(t, p, names, noBracket)
            == if AllowedAt(names, t, BodyStart(t, p)) || BodyStart(t, p) == e then None else Some(e + 1)
  {
    var q := BodyStart(t, p);
    forall i | q <= i < e ensures BodyChar(t[i], noBracket) {
      if i - 1 == p {
        assert t[p + 1] != '/';
      } else {
        assert t[i - 1] != '[';
      }
    }
    assert !BodyChar(t[e], noBracket);
  }

  /** Where the hidden text has no `[`, every character is kept. */
  lemma {:induction false} PassThrough(c: string, t: string, i: nat, j: nat, names: seq<string>, noBracket: bool)
    requires |c| == |t| && i <= j <= |t|
    requires forall k :: i <= k < j ==> t[k] != '['
    ensures KeptFrom(c, t, i, names, noBracket) == c[i..j] + KeptFrom(c, t, j, names, noBracket)
    decreases j - i
  {
    if i < j {
      PassThrough(c, t, i + 1, j, names, noBracket);
      PassOne(c, t, i, j, names, noBracket);
    }
  }

  /** One step of `PassThrough`: a character where no match starts is copied. */
  lemma PassOne(c: string, t: string, i: nat, j: nat, names: seq<string>, noBracket: bool)
    requires |c| == |t| && i < j <= |t| && MatchAt(t, i, names, noBracket).None?
    requires KeptFrom(c, t, i + 1, names, noBracket) == c[i + 1..j] + KeptFrom(c, t, j, names, noBracket)
    ensures KeptFrom(c, t, i, names, noBracket) == c[i..j] + KeptFrom(c, t, j, names, noBracket)
  {
    KeptNoMatch(c, t, i, names, noBracket);
    ConsAssoc(c[i], c[i + 1..j], KeptFrom(c, t, j, names, noBracket));
    assert c[i..j] == [c[i]] + c[i + 1..j];
  }

  /** One step of the pass where no match starts. */
  lemma KeptNoMatch(c: string, t: string, p: nat, names: seq<string>, noBracket: bool)
    requires |c| == |t| && p < |t| && MatchAt(t, p, names, noBracket).None?
    ensures KeptFrom(c, t, p, names, noBracket) == [c[p]] + KeptFrom(c, t, p + 1, names, noBracket)
  {
  }

  /** One step of the pass where a match starts: the pass resumes after it. */
  lemma KeptMatch(c: string, t: string, p: nat, e: nat, names: seq<string>, noBracket: bool)
    requires |c| == |t| && p < |t| && MatchAt(t, p, names, noBracket) == Some(e)
    ensures KeptFrom(c, t, p, names, noBracket) == KeptFrom(c, t, e, names, noBracket)
  {
  }

  lemma ConsAssoc(x: char, a: string, b: string)
    ensures [x] + (a + b) == ([x] + a) + b
  {
  }

  // ---------------------------------------------------------------------
  // Locality of the pass
  // ---------------------------------------------------------------------

  lemma StartsAtShift(k: string, t: string, s: nat, q: nat)
    requires s <= q && s <= |t|
    ensures StartsAt(k, t, q) <==> StartsAt(k, t[s..], q - s)
  {
    if q + |k| <= |t| {
      assert t[s..][q - s..q - s + |k|] == t[q..q + |k|];
    }
  }

  lemma {:induction false} BodyEndShift(t: string, s: nat, q: nat, noBracket: bool)
    requires s <= q <= |t|
    ensures BodyEnd(t, q, noBracket) == BodyEnd(t[s..], q - s, noBracket) + s
    decreases |t| - q
  {
    if q < |t| && BodyChar(t[q], noBracket) {
      BodyEndShift(t, s, q + 1, noBracket);
    }
  }

  /** A match depends only on the text from its start on. */
  lemma MatchAtShift(t: string, s: nat, p: nat, names: seq<string>, noBracket: bool)
    requires s <= p < |t|
    ensures MatchAt(t, p, names, noBracket).None? ==> MatchAt(t[s..], p - s, names, noBracket).None?
    ensures MatchAt(t, p, names, noBracket).Some? ==>
              MatchAt(t[s..], p - s, names, noBracket) == Some(MatchAt(t, p, names, noBracket).value - s)
  {
    var u := t[s..];
    var q := BodyStart(t, p);
    assert BodyStart(u, p - s) == q - s;
    forall k | k in names ensures StartsAt(k, t, q) <==> StartsAt(k, u, q - s) {
      StartsAtShift(k, t, s, q);
    }
    AllowedAtSame(names, t, q, u, q - s);
    if q <= |t| {
      BodyEndShift(t, s, q, noBracket);
    }
  }

  /** The pass over `c[s..]` from `p - s` is the pass over `c` from `p`. */
  lemma {:induction false} KeptShift(c: string, t: string, s: nat, p: nat, names: seq<string>, noBracket: bool)
    requires |c| == |t| && s <= p <= |t|
    ensures KeptFrom(c, t, p, names, noBracket) == KeptFrom(c[s..], t[s..], p - s, names, noBracket)
    decreases |t| - p, 1
  {
    if p == |t| {
      assert p - s == |t[s..]|;
    } else {
      MatchAtShift(t, s, p, names, noBracket);
      var m := MatchAt(t, p, names, noBracket);
      if m.Some? {
        KeptShiftAtMatch(c, t, s, p, m.value, names, noBracket);
      } else {
        KeptShift(c, t, s, p + 1, names, noBracket);
        KeptShiftStep(c, t, s, p, names, noBracket);
      }
    }
  }

  /** One unmatched character: it is emitted on both sides, then the rest agrees. */
  lemma KeptShiftStep(c: string, t: string, s: nat, p: nat, names: seq<string>, noBracket: bool)
    requires |c| == |t| && s <= p < |t|
    requires MatchAt(t, p, names, noBracket).None? && MatchAt(t[s..], p - s, names, noBracket).None?
    requires KeptFrom(c, t, p + 1, names, noBracket) == KeptFrom(c[s..], t[s..], p + 1 - s, names, noBracket)
    ensures KeptFrom(c, t, p, names, noBracket) == KeptFrom(c[s..], t[s..], p - s, names, noBracket)
  {
    var cs, ts, ps := c[s..], t[s..], p - s;
    assert |cs| == |ts| && ps < |ts| && cs[ps] == c[p];
    KeptNoMatch(cs, ts, ps, names, noBracket);
    KeptNoMatch(c, t, p, names, noBracket);
  }

  lemma {:induction false} KeptShiftAtMatch(c: string, t: string, s: nat, p: nat, e: nat, names: seq<string>, noBracket: bool)
    requires |c| == |t| && s <= p < |t|
    requires MatchAt(t, p, names, noBracket) == Some(e)
    requires MatchAt(t[s..], p - s, names, noBracket) == Some(e - s)
    ensures KeptFrom(c, t, p, names, noBracket) == KeptFrom(c[s..], t[s..], p - s, names, noBracket)
    decreases |t| - p, 0
  {
    var cs, ts := c[s..], t[s..];
    assert s <= p < e <= |t|;
    var ps, es := p - s, e - s;
    assert |cs| == |ts| && ps < |ts| && MatchAt(ts, ps, names, noBracket) == Some(es);
    KeptMatch(cs, ts, ps, es, names, noBracket);
    KeptShift(c, t, s, e, names, noBracket);
    KeptMatch(c, t, p, e, names, noBracket);
  }

  lemma StartsAtPrefix(k: string, t: string, n: nat, q: nat)
    requires q <= n < |t| && t[n] == '[' && '[' !in k
    ensures StartsAt(k, t, q) <==> StartsAt(k, t[..n], q)
  {
    if q + |k| <= n {
      assert t[..n][q..q + |k|] == t[q..q + |k|];
    } else if q + |k| <= |t| {
      assert t[q..q + |k|][n - q] == '[';
    }
  }

  lemma {:induction false} BodyEndPrefix(t: string, n: nat, q: nat)
    requires q <= n < |t| && t[n] == '['
    ensures BodyEnd(t, q, true) == BodyEnd(t[..n], q, true)
    decreases n - q
  {
    if q < n && BodyChar(t[q], true) {
      BodyEndPrefix(t, n, q + 1);
    }
  }

  /**
   * When the body stops at `[`, a match that starts before a `[` ends
   * before it, and is the same match in the text cut at that `[`.
   */
  lemma MatchAtPrefix(t: string, n: nat, p: nat, names: seq<string>)
    requires p < n < |t| && t[n] == '[' && PlainNames(names)
    ensures MatchAt(t, p, names, true) == MatchAt(t[..n], p, names, true)
    ensures MatchAt(t, p, names, true).Some? ==> MatchAt(t, p, names, true).value <= n
  {
    var u := t[..n];
    var q := BodyStart(t, p);
    assert BodyStart(u, p) == q;
    forall k | k in names ensures StartsAt(k, t, q) <==> StartsAt(k, u, q) {
      StartsAtPrefix(k, t, n, q);
    }
    AllowedAtSame(names, t, q, u, q);
    BodyEndPrefix(t, n, q);
  }

  /** The pass over text up to a `[` is the pass over that prefix, then the pass from the `[`. */
  lemma {:induction false} KeptPrefix(c: string, t: string, n: nat, p: nat, names: seq<string>)
    requires |c| == |t| && p <= n < |t| && t[n] == '[' && PlainNames(names)
    ensures KeptFrom(c, t, p, names, true) == KeptFrom(c[..n], t[..n], p, names, true) + KeptFrom(c, t, n, names, true)
    decreases n - p
  {
    if p < n {
      MatchAtPrefix(t, n, p, names);
      var m := MatchAt(t, p, names, true);
      if m.Some? {
        KeptPrefix(c, t, n, m.value, names);
        KeptMatch(c, t, p, m.value, names, true);
        KeptMatch(c[..n], t[..n], p, m.value, names, true);
      } else {
        KeptPrefix(c, t, n, p + 1, names);
        KeptNoMatch(c, t, p, names, true);
        KeptNoMatch(c[..n], t[..n], p, names, true);
        assert c[..n][p] == c[p];
        ConsAssoc(c[p], KeptFrom(c[..n], t[..n], p + 1, names, true), KeptFrom(c, t, n, names, true));
      }
    }
  }

  // ---------------------------------------------------------------------
  // What the strip step keeps and removes
  // ---------------------------------------------------------------------

  lemma FreshSlice(c: string, names: seq<string>, h1: char, h2: char, i: nat, j: nat)
    requires Fresh(c, names, h1, h2) && i <= j <= |c|
    ensures Fresh(c[i..j], names, h1, h2)
  {
    assert forall x :: x in c[i..j] ==> x in c;
  }

  /** With the corrected body, the strip step splits at any `[`. */
  lemma StripBefore(c: string, tags: PhpValue, h1: char, h2: char, p: nat)
    requires Fresh(c, ActiveShortcodes(tags), h1, h2) && PlainNames(ActiveShortcodes(tags))
    requires p < |c| && c[p] == '['
    ensures StripDisabledShortcodes(c, tags, h1, h2)
            == StripDisabledShortcodes(c[..p], tags, h1, h2) + KeptFrom(c, Hidden(c, h2), p, ActiveShortcodes(tags), true)
  {
    var names := ActiveShortcodes(tags);
    var t := Hidden(c, h2);
    StripKeepsText(c, tags, h1, h2, true);
    KeptPrefix(c, t, p, 0, names);
    assert c[..p] == c[..p][0..];
    FreshSlice(c, names, h1, h2, 0, p);
    StripKeepsText(c[..p], tags, h1, h2, true);
    HiddenPrefix(c, h2, p);
  }

  /** After a character other than `[`, the rest of the pass is the strip step of the rest. */
  lemma StripAfter(c: string, tags: PhpValue, h1: char, h2: char, n: nat, noBracket: bool)
    requires Fresh(c, ActiveShortcodes(tags), h1, h2)
    requires 0 < n <= |c| && c[n - 1] != '['
    ensures KeptFrom(c, Hidden(c, h2), n, ActiveShortcodes(tags), noBracket) == StripWith(c[n..], tags, h1, h2, noBracket)
  {
    var names := ActiveShortcodes(tags);
    var t := Hidden(c, h2);
    KeptShift(c, t, n, n, names, noBracket);
    HiddenTail(c, h2, n);
    FreshSlice(c, names, h1, h2, n, |c|);
    assert c[n..] == c[n..|c|];
    StripKeepsText(c[n..], tags, h1, h2, noBracket);
  }

  /** A token of the content is a token of the hidden text, with the same body start and the same allowed names. */
  lemma HiddenToken(c: string, names: seq<string>, h1: char, h2: char, p: nat, e: nat)
    requires Fresh(c, names, h1, h2) && PlainNames(names) && TokenAt(c, p, e)
    ensures var t := Hidden(c, h2);
            && TokenAt(t, p, e) && SlashesAfterBracket(t)
            && BodyStart(t, p) == BodyStart(c, p)
            && (AllowedAt(names, t, BodyStart(c, p)) <==> AllowedAt(names, c, BodyStart(c, p)))
            && forall i :: p < i <= e ==> t[i] != '['
  {
    var t := Hidden(c, h2);
    HiddenHidesOnlySlashes(c, h2);
    HiddenSlashes(c, h2);
    AllowedHidden(c, t, h2, names, BodyStart(c, p));
  }

  /** Where nothing matches at `p` and no `[` follows before `j`, the pass copies `c[p..j]`. */
  lemma KeptThrough(c: string, t: string, p: nat, j: nat, names: seq<string>, noBracket: bool)
    requires |c| == |t| && p < j <= |t| && MatchAt(t, p, names, noBracket).None?
    requires forall i :: p < i < j ==> t[i] != '['
    ensures KeptFrom(c, t, p, names, noBracket) == c[p..j] + KeptFrom(c, t, j, names, noBracket)
  {
    PassThrough(c, t, p + 1, j, names, noBracket);
    PassOne(c, t, p, j, names, noBracket);
  }

  /** The pattern does not match at an allowed token, and the token holds no other `[`. */
  lemma AllowedTokenUnmatched(c: string, names: seq<string>, h1: char, h2: char, p: nat, e: nat)
    requires Fresh(c, names, h1, h2) && PlainNames(names)
    requires TokenAt(c, p, e) && AllowedAt(names, c, BodyStart(c, p))
    ensures MatchAt(Hidden(c, h2), p, names, true).None?
    ensures forall i :: p < i <= e ==> Hidden(c, h2)[i] != '['
  {
    HiddenToken(c, names, h1, h2, p, e);
    MatchAtToken(Hidden(c, h2), p, e, names, true);
  }

  /** At an allowed token `c[p..n]`, the pass copies the token and goes on after it. */
  lemma KeptAllowedToken(c: string, names: seq<string>, h1: char, h2: char, p: nat, n: nat)
    requires Fresh(c, names, h1, h2) && PlainNames(names)
    requires p < n && TokenAt(c, p, n - 1) && AllowedAt(names, c, BodyStart(c, p))
    ensures KeptFrom(c, Hidden(c, h2), p, names, true) == c[p..n] + KeptFrom(c, Hidden(c, h2), n, names, true)
  {
    AllowedTokenUnmatched(c, names, h1, h2, p, n - 1);
    KeptThrough(c, Hidden(c, h2), p, n, names, true);
  }

  /** At a disabled token `c[p..n]` with a non-empty body, the pass drops the token and goes on after it. */
  lemma KeptDisabledToken(c: string, names: seq<string>, h1: char, h2: char, p: nat, n: nat)
    requires Fresh(c, names, h1, h2) && PlainNames(names)
    requires p < n && TokenAt(c, p, n - 1) && BodyStart(c, p) < n - 1 && !AllowedAt(names, c, BodyStart(c, p))
    ensures KeptFrom(c, Hidden(c, h2), p, names, true) == KeptFrom(c, Hidden(c, h2), n, names, true)
  {
    var t, e := Hidden(c, h2), n - 1;
    HiddenToken(c, names, h1, h2, p, e);
    MatchAtToken(t, p, e, names, true);
    KeptMatch(c, t, p, n, names, true);
  }

  /**
   * Where the pass from a `[` at `p` emits `mid` and then resumes at `n`,
   * after a character other than `[`, the strip step is that of the text
   * before `p`, then `mid`, then that of the text from `n` on.
   */
  lemma StripSplice(c: string, tags: PhpValue, h1: char, h2: char, p: nat, n: nat, mid: string)
    requires Fresh(c, ActiveShortcodes(tags), h1, h2) && PlainNames(ActiveShortcodes(tags))
    requires p < n <= |c| && c[p] == '[' && c[n - 1] != '['
    requires KeptFrom(c, Hidden(c, h2), p, ActiveShortcodes(tags), true)
             == mid + KeptFrom(c, Hidden(c, h2), n, ActiveShortcodes(tags), true)
    ensures StripDisabledShortcodes(c, tags, h1, h2)
            == StripDisabledShortcodes(c[..p], tags, h1, h2) + mid + StripDisabledShortcodes(c[n..], tags, h1, h2)
  {
    var names, t := ActiveShortcodes(tags), Hidden(c, h2);
    StripAround(c, tags, h1, h2, p, n);
    JoinKept(StripDisabledShortcodes(c, tags, h1, h2), StripDisabledShortcodes(c[..p], tags, h1, h2),
             KeptFrom(c, t, p, names, true), mid, KeptFrom(c, t, n, names, true),
             StripDisabledShortcodes(c[n..], tags, h1, h2));
  }

  /** Joins three pieces that two equations link. */
  lemma JoinSkipped(x: string, a: string, k1: string, k2: string, b: string)
    requires x == a + k1 && k1 == k2 && k2 == b
    ensures x == a + b
  {
  }

  /** Joins three pieces around a kept middle. */
  lemma JoinKept(x: string, a: string, k1: string, m: string, k2: string, b: string)
    requires x == a + k1 && k1 == m + k2 && k2 == b
    ensures x == a + m + b
  {
    Assoc(a, m, b);
  }

  /** The strip step split at a `[` at `p` and resumed after a character other than `[` at `n - 1`. */
  lemma StripAround(c: string, tags: PhpValue, h1: char, h2: char, p: nat, n: nat)
    requires Fresh(c, ActiveShortcodes(tags), h1, h2) && PlainNames(ActiveShortcodes(tags))
    requires p < n <= |c| && c[p] == '[' && c[n - 1] != '['
    ensures StripDisabledShortcodes(c, tags, h1, h2)
            == StripDisabledShortcodes(c[..p], tags, h1, h2) + KeptFrom(c, Hidden(c, h2), p, ActiveShortcodes(tags), true)
    ensures KeptFrom(c, Hidden(c, h2), n, ActiveShortcodes(tags), true) == StripDisabledShortcodes(c[n..], tags, h1, h2)
  {
    StripAfter(c, tags, h1, h2, n, true);
    StripBefore(c, tags, h1, h2, p);
  }

  /**
   * A token whose body starts with an allowed name is kept verbatim, slashes
   * in its attributes included; the test is a prefix test, so `[keptx]`
   * stays when `kept` is allowed. The text around it is stripped on its own.
   * The token is `c[p..n]`.
   */
  lemma KeptTokenSurvives(c: string, tags: PhpValue, h1: char, h2: char, p: nat, n: nat)
    requires Fresh(c, ActiveShortcodes(tags), h1, h2) && PlainNames(ActiveShortcodes(tags))
    requires p < n && TokenAt(c, p, n - 1) && AllowedAt(ActiveShortcodes(tags), c, BodyStart(c, p))
    ensures StripDisabledShortcodes(c, tags, h1, h2)
            == StripDisabledShortcodes(c[..p], tags, h1, h2) + c[p..n] + StripDisabledShortcodes(c[n..], tags, h1, h2)
  {
    KeptAllowedToken(c, ActiveShortcodes(tags), h1, h2, p, n);
    StripSplice(c, tags, h1, h2, p, n, c[p..n]);
  }

  /**
   * A token with a non-empty body that does not start with an allowed name
   * is removed, brackets and body, and nothing else: the text between an
   * opening and a closing token stays. The token is `c[p..n]`.
   */
  lemma DisabledTokenRemoved(c: string, tags: PhpValue, h1: char, h2: char, p: nat, n: nat)
    requires Fresh(c, ActiveShortcodes(tags), h1, h2) && PlainNames(ActiveShortcodes(tags))
    requires p < n && TokenAt(c, p, n - 1) && BodyStart(c, p) < n - 1
    requires !AllowedAt(ActiveShortcodes(tags), c, BodyStart(c, p))
    ensures StripDisabledShortcodes(c, tags, h1, h2)
            == StripDisabledShortcodes(c[..p], tags, h1, h2) + StripDisabledShortcodes(c[n..], tags, h1, h2)
  {
    var names, t := ActiveShortcodes(tags), Hidden(c, h2);
    KeptDisabledToken(c, names, h1, h2, p, n);
    StripAround(c, tags, h1, h2, p, n);
    JoinSkipped(StripDisabledShortcodes(c, tags, h1, h2), StripDisabledShortcodes(c[..p], tags, h1, h2),
                KeptFrom(c, t, p, names, true), KeptFrom(c, t, n, names, true),
                StripDisabledShortcodes(c[n..], tags, h1, h2));
  }

  /** With an empty or missing tag list, every token `c[p..n]` with a non-empty body is removed. */
  lemma NoTagsRemovesEveryToken(c: string, tags: PhpValue, h1: char, h2: char, p: nat, n: nat)
    requires ActiveShortcodes(tags) == [] && Fresh(c, [], h1, h2)
    requires p < n && TokenAt(c, p, n - 1) && BodyStart(c, p) < n - 1
    ensures StripDisabledShortcodes(c, tags, h1, h2)
            == StripDisabledShortcodes(c[..p], tags, h1, h2) + StripDisabledShortcodes(c[n..], tags, h1, h2)
  {
    DisabledTokenRemoved(c, tags, h1, h2, p, n);
  }

  // ---------------------------------------------------------------------
  // Where the two body classes agree
  // ---------------------------------------------------------------------

  /** No `[` is followed by another `[` before a `]` closes it. */
  predicate NoNestedOpen(c: string) {
    forall i, j :: 0 <= i < j < |c| && c[i] == '[' && c[j] == '[' ==> exists k :: i < k < j && c[k] == ']'
  }

  /** Every `[` is followed, somewhere after it, by a `]`. */
  predicate OpensClosed(c: string) {
    forall i :: 0 <= i < |c| && c[i] == '[' ==> exists k :: i < k < |c| && c[k] == ']'
  }

  /**
   * From a body start after a `[` with no `]` in between, the run of body
   * characters meets no `[` in text without nested openings, so both body
   * classes end it at the same place.
   */
  lemma {:induction false} BodyEndAgree(t: string, p: nat, q: nat)
    requires p < q <= |t| && t[p] == '[' && NoNestedOpen(t)
    requires forall k :: p < k < q ==> t[k] != ']'
    ensures BodyEnd(t, q, false) == BodyEnd(t, q, true)
    decreases |t| - q
  {
    if q < |t| && BodyChar(t[q], false) {
      assert t[q] != '[';
      BodyEndAgree(t, p, q + 1);
    }
  }

  /** Without nested openings both patterns match alike at every position. */
  lemma MatchAgree(t: string, p: nat, names: seq<string>)
    requires p < |t| && NoNestedOpen(t)
    ensures MatchAt(t, p, names, false) == MatchAt(t, p, names, true)
  {
    if t[p] == '[' {
      BodyEndAgree(t, p, BodyStart(t, p));
    }
  }

  /** Where both patterns match alike at every position, both passes keep the same characters. */
  lemma {:induction false} KeptAgree(c: string, t: string, p: nat, names: seq<string>)
    requires |c| == |t| && p <= |t|
    requires forall q :: p <= q < |t| ==> MatchAt(t, q, names, false) == MatchAt(t, q, names, true)
    ensures KeptFrom(c, t, p, names, false) == KeptFrom(c, t, p, names, true)
    decreases |t| - p
  {
    if p < |t| {
      var m := MatchAt(t, p, names, true);
      var n := if m.Some? then m.value else p + 1;
      KeptAgree(c, t, n, names);
      KeptAgreeStep(c, t, p, n, names);
    }
  }

  /** One step of `KeptAgree`: where both patterns match alike at `p`, both passes go on at `n`. */
  lemma KeptAgreeStep(c: string, t: string, p: nat, n: nat, names: seq<string>)
    requires |c| == |t| && p < |t| && MatchAt(t, p, names, false) == MatchAt(t, p, names, true)
    requires n == if MatchAt(t, p, names, true).Some? then MatchAt(t, p, names, true).value else p + 1
    requires KeptFrom(c, t, n, names, false) == KeptFrom(c, t, n, names, true)
    ensures KeptFrom(c, t, p, names, false) == KeptFrom(c, t, p, names, true)
  {
    if MatchAt(t, p, names, true).Some? {
      KeptMatch(c, t, p, n, names, false);
      KeptMatch(c, t, p, n, names, true);
    } else {
      KeptNoMatch(c, t, p, names, false);
      KeptNoMatch(c, t, p, names, true);
    }
  }

  /** Hiding slashes moves no bracket. */
  lemma HiddenNoNested(c: string, h2: char)
    requires NoNestedOpen(c) && h2 != '[' && h2 != ']'
    ensures NoNestedOpen(Hidden(c, h2))
  {
    var t := Hidden(c, h2);
    forall i, j | 0 <= i < j < |t| && t[i] == '[' && t[j] == '['
      ensures exists k :: i < k < j && t[k] == ']'
    {
      assert c[i] == '[' && c[j] == '[';
      var k :| i < k < j && c[k] == ']';
      assert t[k] == ']';
    }
  }

  /**
   * On content where no `[` is followed by another `[` before the next `]`,
   * the strip step as written and the one whose body stops at `[` return
   * the same text.
   */
  lemma StripAgree(c: string, tags: PhpValue, h1: char, h2: char)
    requires Fresh(c, ActiveShortcodes(tags), h1, h2) && NoNestedOpen(c)
    ensures StripDisabledShortcodesAsWritten(c, tags, h1, h2) == StripDisabledShortcodes(c, tags, h1, h2)
  {
    StripKeepsText(c, tags, h1, h2, false);
    StripKeepsText(c, tags, h1, h2, true);
    HiddenNoNested(c, h2);
    var t := Hidden(c, h2);
    forall q | 0 <= q < |t| ensures MatchAt(t, q, ActiveShortcodes(tags), false) == MatchAt(t, q, ActiveShortcodes(tags), true) {
      MatchAgree(t, q, ActiveShortcodes(tags));
    }
    KeptAgree(c, t, 0, ActiveShortcodes(tags));
  }

  /** A piece of text without nested openings has none either. */
  lemma NoNestedSlice(c: string, a: nat, b: nat)
    requires NoNestedOpen(c) && a <= b <= |c|
    ensures NoNestedOpen(c[a..b])
  {
    var s := c[a..b];
    forall i, j | 0 <= i < j < |s| && s[i] == '[' && s[j] == '['
      ensures exists k :: i < k < j && s[k] == ']'
    {
      assert c[a + i] == '[' && c[a + j] == '[';
      var k :| a + i < k < a + j && c[k] == ']';
      assert s[k - a] == ']';
    }
  }

  /** Two texts whose openings are closed and not nested join into one. */
  lemma NoNestedJoin(a: string, b: string)
    requires NoNestedOpen(a) && OpensClosed(a) && NoNestedOpen(b) && OpensClosed(b)
    ensures NoNestedOpen(a + b) && OpensClosed(a + b)
  {
    var c := a + b;
    forall i, j | 0 <= i < j < |c| && c[i] == '[' && c[j] == '['
      ensures exists k :: i < k < j && c[k] == ']'
    {
      if j < |a| {
        assert a[i] == '[' && a[j] == '[';
        var k :| i < k < j && a[k] == ']';
        assert c[k] == ']';
      } else if i < |a| {
        assert a[i] == '[';
        var k :| i < k < |a| && a[k] == ']';
        assert c[k] == ']';
      } else {
        assert b[i - |a|] == '[' && b[j - |a|] == '[';
        var k :| i - |a| < k < j - |a| && b[k] == ']';
        assert c[k + |a|] == ']';
      }
    }
    forall i | 0 <= i < |c| && c[i] == '['
      ensures exists k :: i < k < |c| && c[k] == ']'
    {
      if i < |a| {
        assert a[i] == '[';
        var k :| i < k < |a| && a[k] == ']';
        assert c[k] == ']';
      } else {
        assert b[i - |a|] == '[';
        var k :| i - |a| < k < |b| && b[k] == ']';
        assert c[k + |a|] == ']';
      }
    }
  }

  /** A token on its own has one opening, closed at its end. */
  lemma TokenClosed(tok: string)
    requires |tok| > 0 && TokenAt(tok, 0, |tok| - 1)
    ensures NoNestedOpen(tok) && OpensClosed(tok)
  {
    forall i | 0 <= i < |tok| && tok[i] == '['
      ensures exists k :: i < k < |tok| && tok[k] == ']'
    {
      assert tok[|tok| - 1] == ']';
    }
  }

  /** `DisabledTokenRemoved` for the strip step as written, on content without nested openings. */
  lemma DisabledTokenRemovedAsWritten(c: string, tags: PhpValue, h1: char, h2: char, p: nat, n: nat)
    requires Fresh(c, ActiveShortcodes(tags), h1, h2) && PlainNames(ActiveShortcodes(tags)) && NoNestedOpen(c)
    requires p < n && TokenAt(c, p, n - 1) && BodyStart(c, p) < n - 1
    requires !AllowedAt(ActiveShortcodes(tags), c, BodyStart(c, p))
    ensures StripDisabledShortcodesAsWritten(c, tags, h1, h2)
            == StripDisabledShortcodesAsWritten(c[..p], tags, h1, h2) + StripDisabledShortcodesAsWritten(c[n..], tags, h1, h2)
  {
    DisabledTokenRemoved(c, tags, h1, h2, p, n);
    AgreeAround(c, tags, h1, h2, p, n);
  }

  /** `KeptTokenSurvives` for the strip step as written, on content without nested openings. */
  lemma KeptTokenSurvivesAsWritten(c: string, tags: PhpValue, h1: char, h2: char, p: nat, n: nat)
    requires Fresh(c, ActiveShortcodes(tags), h1, h2) && PlainNames(ActiveShortcodes(tags)) && NoNestedOpen(c)
    requires p < n && TokenAt(c, p, n - 1) && AllowedAt(ActiveShortcodes(tags), c, BodyStart(c, p))
    ensures StripDisabledShortcodesAsWritten(c, tags, h1, h2)
            == StripDisabledShortcodesAsWritten(c[..p], tags, h1, h2) + c[p..n] + StripDisabledShortcodesAsWritten(c[n..], tags, h1, h2)
  {
    KeptTokenSurvives(c, tags, h1, h2, p, n);
    AgreeAround(c, tags, h1, h2, p, n);
  }

  /** Both strip steps agree on the content and on the text before `p` and after `n`. */
  lemma AgreeAround(c: string, tags: PhpValue, h1: char, h2: char, p: nat, n: nat)
    requires Fresh(c, ActiveShortcodes(tags), h1, h2) && NoNestedOpen(c) && p <= n <= |c|
    ensures StripDisabledShortcodesAsWritten(c, tags, h1, h2) == StripDisabledShortcodes(c, tags, h1, h2)
    ensures StripDisabledShortcodesAsWritten(c[..p], tags, h1, h2) == StripDisabledShortcodes(c[..p], tags, h1, h2)
    ensures StripDisabledShortcodesAsWritten(c[n..], tags, h1, h2) == StripDisabledShortcodes(c[n..], tags, h1, h2)
  {
    var names := ActiveShortcodes(tags);
    StripAgree(c, tags, h1, h2);
    assert c[..p] == c[0..p];
    FreshSlice(c, names, h1, h2, 0, p);
    NoNestedSlice(c, 0, p);
    StripAgree(c[..p], tags, h1, h2);
    assert c[n..] == c[n..|c|];
    FreshSlice(c, names, h1, h2, n, |c|);
    NoNestedSlice(c, n, |c|);
    StripAgree(c[n..], tags, h1, h2);
  }

  /** `NoTagsRemovesEveryToken` for the strip step as written, on content without nested openings. */
  lemma NoTagsRemovesEveryTokenAsWritten(c: string, tags: PhpValue, h1: char, h2: char, p: nat, n: nat)
    requires ActiveShortcodes(tags) == [] && Fresh(c, [], h1, h2) && NoNestedOpen(c)
    requires p < n && TokenAt(c, p, n - 1) && BodyStart(c, p) < n - 1
    ensures StripDisabledShortcodesAsWritten(c, tags, h1, h2)
            == StripDisabledShortcodesAsWritten(c[..p], tags, h1, h2) + StripDisabledShortcodesAsWritten(c[n..], tags, h1, h2)
  {
    DisabledTokenRemovedAsWritten(c, tags, h1, h2, p, n);
  }

  // ---------------------------------------------------------------------
  // Worked example and the nested-bracket finding
  // ---------------------------------------------------------------------

  /** A tag list holding one enabled shortcode, `kept`. */
  function KeptOnly(): (tags: PhpValue)
    ensures ActiveShortcodes(tags) == ["kept"]
  {
    Arr([("kept", Str("kept_handler"))])
  }

  /** Text without `[` comes through the strip step unchanged. */
  lemma PlainTextKept(c: string, h1: char, h2: char)
    requires Fresh(c, ["kept"], h1, h2) && '[' !in c
    ensures StripDisabledShortcodesAsWritten(c, KeptOnly(), h1, h2) == c
    ensures StripDisabledShortcodes(c, KeptOnly(), h1, h2) == c
  {
    StripWithoutBracket(c, KeptOnly(), h1, h2, false);
    StripWithoutBracket(c, KeptOnly(), h1, h2, true);
  }

  /** A token placed between two texts, seen inside the joined text. */
  lemma TokenBetween(a: string, tok: string, b: string)
    requires |tok| > 0 && TokenAt(tok, 0, |tok| - 1)
    ensures var c, p, n := a + tok + b, |a|, |a| + |tok|;
            && c[..p] == a && c[p..n] == tok && c[n..] == b && c[p..] == tok + b
            && TokenAt(c, p, n - 1) && BodyStart(c, p) == p + BodyStart(tok, 0)
  {
    var c, p, n := a + tok + b, |a|, |a| + |tok|;
    assert c[..p] == a;
    assert c[p..n] == tok;
    assert c[n..] == b;
    assert c[p..] == tok + b;
    forall i | p <= i < n ensures c[i] == tok[i - p] {
      assert c[p..n][i - p] == c[i];
    }
  }

  /** `KeptTokenSurvives` for a token written between two texts. */
  lemma KeepTokenBetween(a: string, tok: string, b: string, tags: PhpValue, h1: char, h2: char)
    requires Fresh(a + tok + b, ActiveShortcodes(tags), h1, h2) && PlainNames(ActiveShortcodes(tags))
    requires |tok| > 0 && TokenAt(tok, 0, |tok| - 1) && AllowedAt(ActiveShortcodes(tags), tok, BodyStart(tok, 0))
    ensures StripDisabledShortcodes(a + tok + b, tags, h1, h2)
            == StripDisabledShortcodes(a, tags, h1, h2) + tok + StripDisabledShortcodes(b, tags, h1, h2)
  {
    var c, p, n := a + tok + b, |a|, |a| + |tok|;
    AllowedBetween(a, tok, b, ActiveShortcodes(tags));
    TokenBetween(a, tok, b);
    KeptTokenSurvives(c, tags, h1, h2, p, n);
  }

  /** A name that starts a token's body still starts it once the token is placed between two texts. */
  lemma AllowedBetween(a: string, tok: string, b: string, names: seq<string>)
    requires |tok| > 0 && TokenAt(tok, 0, |tok| - 1) && AllowedAt(names, tok, BodyStart(tok, 0))
    ensures AllowedAt(names, a + tok + b, |a| + BodyStart(tok, 0))
  {
    var c, p, q := a + tok + b, |a|, BodyStart(tok, 0);
    TokenBetween(a, tok, b);
    AllowedAtSome(names, tok, q);
    var k :| k in names && StartsAt(k, tok, q);
    assert (tok + b)[q..q + |k|] == tok[q..q + |k|];
    StartsAtShift(k, c, p, p + q);
    AllowedAtSome(names, c, p + q);
  }

  /** `DisabledTokenRemoved` for a token written between two texts. */
  lemma DropTokenBetween(a: string, tok: string, b: string, tags: PhpValue, h1: char, h2: char)
    requires Fresh(a + tok + b, ActiveShortcodes(tags), h1, h2) && PlainNames(ActiveShortcodes(tags))
    requires |tok| > 0 && TokenAt(tok, 0, |tok| - 1) && BodyStart(tok, 0) < |tok| - 1
    requires !AllowedAt(ActiveShortcodes(tags), tok + b, BodyStart(tok, 0))
    ensures StripDisabledShortcodes(a + tok + b, tags, h1, h2)
            == StripDisabledShortcodes(a, tags, h1, h2) + StripDisabledShortcodes(b, tags, h1, h2)
  {
    var c, p, n := a + tok + b, |a|, |a| + |tok|;
    var q := BodyStart(tok, 0);
    TokenBetween(a, tok, b);
    forall k | k in ActiveShortcodes(tags) ensures StartsAt(k, c, p + q) <==> StartsAt(k, tok + b, q) {
      StartsAtShift(k, c, p, p + q);
    }
    AllowedAtSame(ActiveShortcodes(tags), c, p + q, tok + b, q);
    DisabledTokenRemoved(c, tags, h1, h2, p, n);
  }

  /** `KeepTokenBetween` for the strip step as written, when the joined text has no nested openings. */
  lemma KeepTokenBetweenAsWritten(a: string, tok: string, b: string, tags: PhpValue, h1: char, h2: char)
    requires Fresh(a + tok + b, ActiveShortcodes(tags), h1, h2) && PlainNames(ActiveShortcodes(tags))
    requires NoNestedOpen(a + tok + b)
    requires |tok| > 0 && TokenAt(tok, 0, |tok| - 1) && AllowedAt(ActiveShortcodes(tags), tok, BodyStart(tok, 0))
    ensures StripDisabledShortcodesAsWritten(a + tok + b, tags, h1, h2)
            == StripDisabledShortcodesAsWritten(a, tags, h1, h2) + tok + StripDisabledShortcodesAsWritten(b, tags, h1, h2)
  {
    KeepTokenBetween(a, tok, b, tags, h1, h2);
    TokenBetween(a, tok, b);
    AgreeAround(a + tok + b, tags, h1, h2, |a|, |a| + |tok|);
  }

  /** `DropTokenBetween` for the strip step as written, when the joined text has no nested openings. */
  lemma DropTokenBetweenAsWritten(a: string, tok: string, b: string, tags: PhpValue, h1: char, h2: char)
    requires Fresh(a + tok + b, ActiveShortcodes(tags), h1, h2) && PlainNames(ActiveShortcodes(tags))
    requires NoNestedOpen(a + tok + b)
    requires |tok| > 0 && TokenAt(tok, 0, |tok| - 1) && BodyStart(tok, 0) < |tok| - 1
    requires !AllowedAt(ActiveShortcodes(tags), tok + b, BodyStart(tok, 0))
    ensures StripDisabledShortcodesAsWritten(a + tok + b, tags, h1, h2)
            == StripDisabledShortcodesAsWritten(a, tags, h1, h2) + StripDisabledShortcodesAsWritten(b, tags, h1, h2)
  {
    DropTokenBetween(a, tok, b, tags, h1, h2);
    TokenBetween(a, tok, b);
    AgreeAround(a + tok + b, tags, h1, h2, |a|, |a| + |tok|);
  }

  // ---------------------------------------------------------------------
  // A worked example. The helpers below peel one token at a time off the
  // text `[kept]A[/kept][dropped]B[/dropped]`, writing it as nested joins
  // of its tokens and plain parts so that each step stays cheap to verify.
  // ---------------------------------------------------------------------

  /** The last two parts of the example: `B[/dropped]` becomes `B`. */
  lemma ExampleClosing(h1: char, h2: char)
    requires Fresh("B" + "[/dropped]" + [], ["kept"], h1, h2)
    ensures StripDisabledShortcodes("B" + "[/dropped]" + [], KeptOnly(), h1, h2) == "B"
  {
    assert ("[/dropped]" + [])[3] != 'k';
    DropTokenBetween("B", "[/dropped]", [], KeptOnly(), h1, h2);
    PlainTextKept([], h1, h2);
    PlainTextKept("B", h1, h2);
  }

  /** `[dropped]B[/dropped]` becomes `B`. */
  lemma ExampleDropped(h1: char, h2: char)
    requires Fresh([] + "[dropped]" + ("B" + "[/dropped]" + []), ["kept"], h1, h2)
    ensures StripDisabledShortcodes([] + "[dropped]" + ("B" + "[/dropped]" + []), KeptOnly(), h1, h2) == "B"
  {
    var c3 := "B" + "[/dropped]" + [];
    assert ("[dropped]" + c3)[1] != 'k';
    DropTokenBetween([], "[dropped]", c3, KeptOnly(), h1, h2);
    ExampleClosing(h1, h2);
    PlainTextKept([], h1, h2);
  }

  /** `A[/kept][dropped]B[/dropped]` becomes `A[/kept]B`. */
  lemma ExampleAfterOpening(h1: char, h2: char)
    requires Fresh("A" + "[/kept]" + ([] + "[dropped]" + ("B" + "[/dropped]" + [])), ["kept"], h1, h2)
    ensures StripDisabledShortcodes("A" + "[/kept]" + ([] + "[dropped]" + ("B" + "[/dropped]" + [])), KeptOnly(), h1, h2)
            == "A" + "[/kept]" + "B"
  {
    var c2 := [] + "[dropped]" + ("B" + "[/dropped]" + []);
    assert StartsAt("kept", "[/kept]", 2);
    KeepTokenBetween("A", "[/kept]", c2, KeptOnly(), h1, h2);
    ExampleDropped(h1, h2);
    PlainTextKept("A", h1, h2);
  }

  /**
   * With only `kept` enabled, the tokens of the disabled `dropped` are
   * removed and its enclosed text stays, while `kept` is left whole.
   */
  lemma StripExample(c: string, h1: char, h2: char)
    requires c == "[kept]A[/kept][dropped]B[/dropped]" && Fresh(c, ["kept"], h1, h2)
    ensures StripDisabledShortcodes(c, KeptOnly(), h1, h2) == "[kept]A[/kept]B"
  {
    var c1 := "A" + "[/kept]" + ([] + "[dropped]" + ("B" + "[/dropped]" + []));
    assert StartsAt("kept", "[kept]", 1);
    KeepTokenBetween([], "[kept]", c1, KeptOnly(), h1, h2);
    ExampleAfterOpening(h1, h2);
    PlainTextKept([], h1, h2);
    ExampleSpelling(c);
  }

  /** The worked example with the strip step as written: it has no nested openings, so the result is the same. */
  lemma StripExampleAsWritten(c: string, h1: char, h2: char)
    requires c == "[kept]A[/kept][dropped]B[/dropped]" && Fresh(c, ["kept"], h1, h2)
    ensures StripDisabledShortcodesAsWritten(c, KeptOnly(), h1, h2) == "[kept]A[/kept]B"
  {
    ExampleClosed(c);
    StripAgree(c, KeptOnly(), h1, h2);
    StripExample(c, h1, h2);
  }

  /** The worked example, assembled from its tokens and plain texts, has no nested openings. */
  lemma ExampleClosed(c: string)
    requires c == "[kept]A[/kept][dropped]B[/dropped]"
    ensures NoNestedOpen(c)
  {
    var x := ("[dropped]" + "B") + "[/dropped]";
    var y := "[/kept]" + x;
    ExampleClosedTail();
    ClosedThenPlain("[kept]", "A");
    NoNestedJoin("[kept]" + "A", y);
    ExampleJoined(c);
  }

  /** The example's one-piece spelling equals its spelling as joined parts. */
  lemma ExampleJoined(c: string)
    requires c == "[kept]A[/kept][dropped]B[/dropped]"
    ensures c == ("[kept]" + "A") + ("[/kept]" + (("[dropped]" + "B") + "[/dropped]"))
  {
  }

  /** `[/kept][dropped]B[/dropped]` has no nested openings, and its openings are closed. */
  lemma ExampleClosedTail()
    ensures var x := ("[dropped]" + "B") + "[/dropped]";
            NoNestedOpen("[/kept]" + x) && OpensClosed("[/kept]" + x)
  {
    var x := ("[dropped]" + "B") + "[/dropped]";
    TokenClosed("[/kept]");
    ClosedThenPlain("[dropped]", "B");
    TokenClosed("[/dropped]");
    NoNestedJoin("[dropped]" + "B", "[/dropped]");
    NoNestedJoin("[/kept]", x);
  }

  /** A token followed by plain text has no nested openings, and its one opening is closed. */
  lemma ClosedThenPlain(tok: string, s: string)
    requires |tok| > 0 && TokenAt(tok, 0, |tok| - 1) && '[' !in s
    ensures NoNestedOpen(tok + s) && OpensClosed(tok + s)
  {
    TokenClosed(tok);
    PlainClosed(s);
    NoNestedJoin(tok, s);
  }

  /** Text without `[` has no opening at all. */
  lemma PlainClosed(s: string)
    requires '[' !in s
    ensures NoNestedOpen(s) && OpensClosed(s)
  {
    assert forall i :: 0 <= i < |s| ==> s[i] in s;
  }

  /** The example and its result, spelled as the joins `StripExample` peels apart. */
  lemma ExampleSpelling(c: string)
    requires c == "[kept]A[/kept][dropped]B[/dropped]"
    ensures c == [] + "[kept]" + ("A" + "[/kept]" + ([] + "[dropped]" + ("B" + "[/dropped]" + [])))
    ensures [] + "[kept]" + ("A" + "[/kept]" + "B") == "[kept]A[/kept]B"
  {
  }

  /** Text without `/` is its own hidden form. */
  lemma HiddenWithoutSlash(c: string, h2: char)
    requires '/' !in c
    ensures Hidden(c, h2) == c
  {
    var t := Hidden(c, h2);
    forall i | 0 <= i < |c| ensures t[i] == c[i] {
      assert c[i] in c;
    }
  }

  /** A lone `[` is kept, by the strip step as written and by the corrected one. */
  lemma LoneBracketKept(c: string, h1: char, h2: char)
    requires c == "[" && Fresh(c, ["kept"], h1, h2)
    ensures StripDisabledShortcodesAsWritten(c, KeptOnly(), h1, h2) == c
    ensures StripDisabledShortcodes(c, KeptOnly(), h1, h2) == c
  {
    StripKeepsText(c, KeptOnly(), h1, h2, false);
    StripKeepsText(c, KeptOnly(), h1, h2, true);
    HiddenWithoutSlash(c, h2);
    assert !AllowedAt(["kept"], c, 1);
    KeptNoMatch(c, c, 0, ["kept"], false);
    KeptNoMatch(c, c, 0, ["kept"], true);
  }

  /**
   * The strip pattern as written lets a token body run across `[`: with
   * `kept` enabled, `[[kept]]` (an escaped shortcode, printed literally by
   * WordPress) is matched from its first `[` as a disabled token and
   * reduced to `]`. With the body class excluding `[`, the text is kept.
   */
  lemma KeptTokenSwallowed(c: string, h1: char, h2: char)
    requires c == "[[kept]]" && Fresh(c, ["kept"], h1, h2)
    ensures StripDisabledShortcodesAsWritten(c, KeptOnly(), h1, h2) == "]"
    ensures StripDisabledShortcodes(c, KeptOnly(), h1, h2) == c
  {
    AsWrittenSwallowsEscaped(c, h1, h2);
    CorrectedKeepsEscaped(c, h1, h2);
  }

  /** As written, the pattern matches `[[kept]` from the first `[`. */
  lemma MatchAcrossBracket(c: string)
    requires c == "[[kept]]"
    ensures MatchAt(c, 0, ["kept"], false) == Some(7)
    ensures MatchAt(c, 7, ["kept"], false) == None
  {
    assert !AllowedAt(["kept"], c, 1) by {
      assert c[1..5][0] == c[1] == '[';
      assert ["kept"][1..] == [];
    }
    assert forall i :: 1 <= i < 6 ==> BodyChar(c[i], false);
    assert !BodyChar(c[6], false);
    var e := BodyEnd(c, 1, false);
    assert e == 6;
  }

  lemma AsWrittenSwallowsEscaped(c: string, h1: char, h2: char)
    requires c == "[[kept]]" && Fresh(c, ["kept"], h1, h2)
    ensures StripDisabledShortcodesAsWritten(c, KeptOnly(), h1, h2) == "]"
  {
    StripKeepsText(c, KeptOnly(), h1, h2, false);
    HiddenWithoutSlash(c, h2);
    MatchAcrossBracket(c);
    KeptMatch(c, c, 0, 7, ["kept"], false);
    KeptNoMatch(c, c, 7, ["kept"], false);
  }

  lemma CorrectedKeepsEscaped(c: string, h1: char, h2: char)
    requires c == "[[kept]]" && Fresh(c, ["kept"], h1, h2)
    ensures StripDisabledShortcodes(c, KeptOnly(), h1, h2) == c
  {
    assert c == "[" + "[kept]" + "]";
    assert StartsAt("kept", "[kept]", 1);
    KeepTokenBetween("[", "[kept]", "]", KeptOnly(), h1, h2);
    LoneBracketKept("[", h1, h2);
    PlainTextKept("]", h1, h2);
  }

  /**
   * The same cause removes prose in front of a later token: with no tag
   * enabled, the match for `[d]` starts at the earlier `[` of `[x [d]`, so
   * the strip step as written returns nothing, while the corrected one keeps
   * `[x `. This is why the lemmas about the strip step as written assume no
   * nested openings.
   */
  lemma ProseBeforeTokenSwallowed(c: string, h1: char, h2: char)
    requires c == "[x [d]" && Fresh(c, [], h1, h2)
    ensures StripDisabledShortcodesAsWritten(c, Arr([]), h1, h2) == []
    ensures StripDisabledShortcodes(c, Arr([]), h1, h2) == "[x "
  {
    AsWrittenSwallowsProse(c, h1, h2);
    CorrectedKeepsProse(c, h1, h2);
  }

  /** As written, the pattern matches all of `[x [d]` from its first `[`. */
  lemma MatchProseAsWritten(c: string)
    requires c == "[x [d]"
    ensures MatchAt(c, 0, [], false) == Some(6)
  {
    assert forall i :: 1 <= i < 5 ==> BodyChar(c[i], false);
    assert !BodyChar(c[5], false);
    assert BodyEnd(c, 1, false) == 5;
  }

  /** With the corrected body, the pattern matches only `[d]`. */
  lemma MatchProseCorrected(c: string)
    requires c == "[x [d]"
    ensures MatchAt(c, 0, [], true).None? && MatchAt(c, 1, [], true).None? && MatchAt(c, 2, [], true).None?
    ensures MatchAt(c, 3, [], true) == Some(6)
  {
    assert BodyChar(c[1], true) && BodyChar(c[2], true) && !BodyChar(c[3], true);
    assert BodyEnd(c, 1, true) == 3;
    assert BodyChar(c[4], true) && !BodyChar(c[5], true);
    assert BodyEnd(c, 4, true) == 5;
  }

  lemma AsWrittenSwallowsProse(c: string, h1: char, h2: char)
    requires c == "[x [d]" && Fresh(c, [], h1, h2)
    ensures StripDisabledShortcodesAsWritten(c, Arr([]), h1, h2) == []
  {
    StripKeepsText(c, Arr([]), h1, h2, false);
    HiddenWithoutSlash(c, h2);
    MatchProseAsWritten(c);
    KeptMatch(c, c, 0, 6, [], false);
  }

  lemma CorrectedKeepsProse(c: string, h1: char, h2: char)
    requires c == "[x [d]" && Fresh(c, [], h1, h2)
    ensures StripDisabledShortcodes(c, Arr([]), h1, h2) == "[x "
  {
    StripKeepsText(c, Arr([]), h1, h2, true);
    HiddenWithoutSlash(c, h2);
    MatchProseCorrected(c);
    KeptNoMatch(c, c, 0, [], true);
    KeptNoMatch(c, c, 1, [], true);
    KeptNoMatch(c, c, 2, [], true);
    KeptMatch(c, c, 3, 6, [], true);
  }
}
