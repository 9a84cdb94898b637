/**
 * The pure string helpers of client/src/main.js: `ellipsize`, the slug
 * `normalize`, the initials label `imageForTitle` falls back to, and the
 * `h` template interleaver. Case mapping is ASCII only.
 */
module ClientText {
  import opened Wrappers
  import opened Text

  const Ellipsis: char := '…'

  /**
   * `ellipsize(str, max)`: a string longer than `max` is cut to its first
   * `max - 1` characters plus an ellipsis (with `slice`'s rules for the
   * end bound); a missing string gives "".
   */
  function Ellipsize(str: Option<string>, max: int): (r: string)
    ensures str.None? ==> r == ""
    ensures str.Some? && |str.value| <= max ==> r == str.value
    ensures str.Some? && |str.value| > max && max >= 1 ==>
              |r| == max && r[..max - 1] == str.value[..max - 1] && r[max - 1] == Ellipsis
  {
    if str.Some? && |str.value| > max then Slice(str.value, 0, max - 1) + [Ellipsis]
    else str.GetOr("")
  }

  /** For a positive bound the result never exceeds it, so ellipsizing twice is ellipsizing once. */
  lemma EllipsizeIdempotent(str: Option<string>, max: int)
    requires max >= 1
    ensures |Ellipsize(str, max)| <= max
    ensures Ellipsize(Some(Ellipsize(str, max)), max) == Ellipsize(str, max)
  {
  }

  /** The characters a slug keeps: `[a-z0-9]`. */
  predicate SlugChar(c: char) { 'a' <= c <= 'z' || '0' <= c <= '9' }

  /** No '-' is directly followed by another. */
  predicate NoDoubleDash(s: string) {
    forall i, j :: 0 <= i < |s| && 0 <= j < |s| && j == i + 1 ==> s[i] == '-' ==> s[j] != '-'
  }

  /** Drops the leading characters outside `[a-z0-9]`. */
  function SkipRun(s: string): (r: string)
    ensures |r| <= |s| && (|r| > 0 ==> SlugChar(r[0]))
    ensures r == s[|s| - |r|..]
    ensures forall i :: 0 <= i < |s| - |r| ==> !SlugChar(s[i])
    decreases |s|
  {
    if |s| == 0 || SlugChar(s[0]) then s else SkipRun(s[1..])
  }

  /** `.replace(/[^a-z0-9]+/g, '-')`: every maximal run outside `[a-z0-9]` becomes one '-'. */
  function Collapse(s: string): (r: string)
    ensures forall i :: 0 <= i < |r| ==> SlugChar(r[i]) || r[i] == '-'
    ensures NoDoubleDash(r)
    ensures |s| > 0 && SlugChar(s[0]) <==> |r| > 0 && r[0] != '-'
    ensures |r| <= |s|
    decreases |s|
  {
    if |s| == 0 then ""
    else if SlugChar(s[0]) then [s[0]] + Collapse(s[1..])
    else
      var rest := SkipRun(s[1..]);
      "-" + Collapse(rest)
  }

  /** `.replace(/(^-|-$)/g, '')`: a leading and a trailing '-' are removed. */
  function TrimDashes(s: string): (r: string)
    ensures |r| <= |s|
    ensures forall i :: 0 <= i < |r| ==> r[i] in s
  {
    var t := if |s| > 0 && s[0] == '-' then s[1..] else s;
    if |t| > 0 && t[|t| - 1] == '-' then t[..|t| - 1] else t
  }

  /** A slug: `[a-z0-9]` and single inner dashes only. */
  predicate IsSlug(s: string) {
    && (forall i :: 0 <= i < |s| ==> SlugChar(s[i]) || s[i] == '-')
    && (|s| > 0 ==> s[0] != '-' && s[|s| - 1] != '-')
    && NoDoubleDash(s)
  }

  /** `normalize(t)`: lower-case, collapse every run outside `[a-z0-9]` to '-', trim dashes at the ends. */
  function Normalize(t: Option<string>): (r: string)
    ensures IsSlug(r)
  {
    var c := Collapse(Lower(t.GetOr("")));
    var r := TrimDashes(c);
    assert forall i :: 0 <= i < |r| ==> SlugChar(r[i]) || r[i] == '-';
    r
  }

  /** A slug is its own lower-case form. */
  lemma LowerSlug(s: string)
    requires IsSlug(s)
    ensures Lower(s) == s
  {
  }

  /** A slug collapses to itself: each of its dashes is a run of one. */
  lemma {:induction false} CollapseSlugChars(s: string)
    requires forall i :: 0 <= i < |s| ==> SlugChar(s[i]) || s[i] == '-'
    requires NoDoubleDash(s)
    requires |s| > 0 ==> s[|s| - 1] != '-'
    ensures Collapse(s) == s
    decreases |s|
  {
    if |s| > 0 {
      var t := s[1..];
      assert Collapse(t) == t by { CollapseSlugChars(t); }
      assert Collapse(s) == [s[0]] + Collapse(t) by {
        if !SlugChar(s[0]) {
          assert s[0] == '-' && |t| > 0 && SlugChar(t[0]);
          assert SkipRun(t) == t;
        }
      }
      HeadTail(s);
    }
  }

  lemma HeadTail(s: string)
    requires |s| > 0
    ensures [s[0]] + s[1..] == s
  {
  }

  /** Normalizing a slug gives it back, so `normalize` is idempotent. */
  lemma NormalizeIdempotent(t: Option<string>)
    ensures Normalize(Some(Normalize(t))) == Normalize(t)
  {
    NormalizeSlug(Normalize(t));
  }

  /** A slug is its own normal form. */
  lemma NormalizeSlug(s: string)
    requires IsSlug(s)
    ensures Normalize(Some(s)) == s
  {
    assert Collapse(Lower(s)) == s by {
      LowerSlug(s);
      CollapseSlugChars(s);
    }
    assert TrimDashes(s) == s;
  }

  /** The characters of `s` that a slug keeps, in order. */
  function Kept(s: string): (r: string)
    decreases |s|
  {
    if |s| == 0 then "" else (if SlugChar(s[0]) then [s[0]] else "") + Kept(s[1..])
  }

  /** A skipped run keeps nothing. */
  lemma {:induction false} KeptSkipRun(s: string)
    ensures Kept(SkipRun(s)) == Kept(s)
    decreases |s|
  {
    if |s| > 0 && !SlugChar(s[0]) {
      KeptSkipRun(s[1..]);
    }
  }

  /** Collapsing only rewrites the dropped characters: the kept ones are the same. */
  lemma {:induction false} KeptCollapse(s: string)
    ensures Kept(Collapse(s)) == Kept(s)
    decreases |s|
  {
    if |s| > 0 {
      if SlugChar(s[0]) {
        KeptCollapse(s[1..]);
        assert ([s[0]] + Collapse(s[1..]))[1..] == Collapse(s[1..]);
      } else {
        var rest := SkipRun(s[1..]);
        KeptCollapse(rest);
        KeptSkipRun(s[1..]);
        assert ("-" + Collapse(rest))[1..] == Collapse(rest);
      }
    }
  }

  /** Dropping a '-' at the end keeps the same characters. */
  lemma {:induction false} KeptDropLastDash(s: string)
    requires |s| > 0 && s[|s| - 1] == '-'
    ensures Kept(s[..|s| - 1]) == Kept(s)
    decreases |s|
  {
    if |s| > 1 {
      KeptDropLastDash(s[1..]);
      assert s[1..][..|s[1..]| - 1] == s[..|s| - 1][1..];
    }
  }

  /**
   * The slug keeps exactly the letters and digits of the lower-cased title,
   * in order: what `normalize` drops or rewrites is the rest.
   */
  lemma NormalizeKeeps(t: Option<string>)
    ensures Kept(Normalize(t)) == Kept(Lower(t.GetOr("")))
  {
    var c := Collapse(Lower(t.GetOr("")));
    KeptCollapse(Lower(t.GetOr("")));
    var u := if |c| > 0 && c[0] == '-' then c[1..] else c;
    assert Kept(u) == Kept(c);
    if |u| > 0 && u[|u| - 1] == '-' {
      KeptDropLastDash(u);
    }
  }

  /** `words.map(w => w[0]).join('')`: the first character of each non-empty word. */
  function Heads(words: seq<string>): (r: string)
    ensures |r| <= |words|
    decreases |words|
  {
    if |words| == 0 then ""
    else (if |words[0]| > 0 then [words[0][0]] else "") + Heads(words[1..])
  }

  /**
   * The initials read off the string directly: each character other than a
   * space that starts the string or follows a space. `atStart` says whether
   * the previous character was a space (or there was none).
   */
  function Initials(s: string, atStart: bool): string
    decreases |s|
  {
    if |s| == 0 then ""
    else if s[0] == ' ' then Initials(s[1..], true)
    else if atStart then [s[0]] + Initials(s[1..], false)
    else Initials(s[1..], false)
  }

  /** Splitting on spaces and taking heads is reading off the initials. */
  lemma {:induction false} HeadsSplit(s: string)
    ensures Heads(Split(s, ' ')) == Initials(s, true)
    ensures Heads(Split(s, ' ')[1..]) == Initials(s, false)
    decreases |s|
  {
    if |s| > 0 {
      var rest := Split(s[1..], ' ');
      HeadsSplit(s[1..]);
      if s[0] == ' ' {
        assert Split(s, ' ') == [""] + rest;
        assert ([""] + rest)[1..] == rest;
      } else {
        var parts := [[s[0]] + rest[0]] + rest[1..];
        assert Split(s, ' ') == parts;
        assert parts[1..] == rest[1..];
      }
    }
  }

  /**
   * The label `imageForTitle` falls back to: the initials of the
   * space-separated words, cut to three characters and upper-cased.
   */
  function FallbackLabel(title: Option<string>): (r: string)
    ensures |r| <= 3
  {
    var initials := Heads(Split(title.GetOr(""), ' '));
    Upper(Slice(initials, 0, 3))
  }

  /** The label is the first three initials, upper-cased. */
  lemma FallbackLabelInitials(title: Option<string>)
    ensures var i := Initials(title.GetOr(""), true);
            FallbackLabel(title) == Upper(if |i| <= 3 then i else i[..3])
  {
    HeadsSplit(title.GetOr(""));
  }

  /** The slugs that have a photo (`IMG_MAP`). */
  const PhotoSlugs: set<string> := {
    "javascript-foundations", "html-css-essentials", "git-github", "linux-basics",
    "data-structures-in-js", "algorithms-basics", "http-rest", "node-js-fundamentals",
    "express-js-essentials", "sql-basics", "sqlite-practical", "nosql-basics",
    "typescript-basics", "web-accessibility", "testing-fundamentals", "security-basics",
    "cloud-basics", "docker-basics", "ci-cd-essentials", "system-design-intro"
  }

  /** A generated thumbnail's caption and gradient colours (`courseImageConfig`). */
  datatype Badge = Badge(caption: string, c1: string, c2: string)

  const BadgeConfig: map<string, Badge> := map[
    "javascript-foundations" := Badge("JS", "#0EA5E9", "#22C55E"),
    "html-css-essentials" := Badge("HTML/CSS", "#F97316", "#0EA5E9"),
    "git-github" := Badge("Git", "#EF4444", "#64748B"),
    "linux-basics" := Badge("Linux", "#22C55E", "#64748B"),
    "data-structures-in-js" := Badge("DS", "#8B5CF6", "#06B6D4"),
    "algorithms-basics" := Badge("Algo", "#06B6D4", "#22C55E"),
    "http-rest" := Badge("HTTP", "#F59E0B", "#0EA5E9"),
    "node-js-fundamentals" := Badge("Node", "#22C55E", "#0EA5E9"),
    "express-js-essentials" := Badge("Express", "#64748B", "#0EA5E9"),
    "sql-basics" := Badge("SQL", "#0EA5E9", "#8B5CF6"),
    "sqlite-practical" := Badge("SQLite", "#14B8A6", "#0EA5E9"),
    "nosql-basics" := Badge("NoSQL", "#F97316", "#22C55E"),
    "typescript-basics" := Badge("TS", "#3B82F6", "#9333EA"),
    "web-accessibility" := Badge("a11y", "#22C55E", "#F59E0B"),
    "testing-fundamentals" := Badge("Test", "#10B981", "#8B5CF6"),
    "security-basics" := Badge("Sec", "#EF4444", "#0EA5E9"),
    "cloud-basics" := Badge("Cloud", "#60A5FA", "#A78BFA"),
    "docker-basics" := Badge("Docker", "#0EA5E9", "#2563EB"),
    "ci-cd-essentials" := Badge("CI/CD", "#22C55E", "#3B82F6"),
    "system-design-intro" := Badge("SD", "#F59E0B", "#EF4444")
  ]

  /**
   * The member names of `Object.prototype` made only of slug characters. An
   * object literal indexed by a slug also finds these inherited members, and
   * `IMG_MAP.constructor` is the (truthy) `Object` function.
   */
  const InheritedSlugs: set<string> := {"constructor"}

  /**
   * The image `imageForTitle` picks: a photo by slug, an inherited member of
   * `IMG_MAP` returned in place of a photo URL, or a generated badge with its
   * caption.
   */
  datatype Thumbnail = Photo(slug: string) | Inherited(member: string) | Generated(badge: Badge, caption: string)

  /** `${title}` in the badge's template: the title, or the text "undefined" when it is missing. */
  function Caption(title: Option<string>): string {
    if title.Some? then title.value else "undefined"
  }

  /** `imageForTitle(title)`, with `IMG_MAP[key]` read as JavaScript reads an object literal. */
  function ImageForTitle(title: Option<string>): (r: Thumbnail)
    ensures r.Photo? <==> Normalize(title) in PhotoSlugs
    ensures r.Photo? ==> r.slug == Normalize(title)
    ensures r.Inherited? <==> Normalize(title) in InheritedSlugs
    ensures r.Inherited? ==> r.member == Normalize(title)
    ensures r.Generated? ==> r.caption == Caption(title) && (title.None? ==> r.caption == "undefined")
  {
    var key := Normalize(title);
    if key in PhotoSlugs then Photo(key)
    else if key in InheritedSlugs then Inherited(key)
    else if key in BadgeConfig then Generated(BadgeConfig[key], Caption(title))
    else Generated(Badge(FallbackLabel(title), "#0EA5E9", "#22C55E"), Caption(title))
  }

  /**
   * Every configured badge slug also has a photo, so the configured labels
   * are never shown: a title without a photo always gets the initials label.
   */
  lemma ConfiguredBadgesUnused(title: Option<string>)
    ensures ImageForTitle(title).Generated? ==>
              ImageForTitle(title).badge == Badge(FallbackLabel(title), "#0EA5E9", "#22C55E")
  {
    assert BadgeConfig.Keys == PhotoSlugs;
  }

  /** As written: a course titled "constructor" gets `Object.prototype.constructor` instead of an image. */
  lemma ConstructorTitleGetsPrototypeMember()
    ensures ImageForTitle(Some("constructor")) == Inherited("constructor")
  {
    assert IsSlug("constructor");
    NormalizeSlug("constructor");
  }

  /**
   * `imageForTitle` with an own-key lookup (`Object.hasOwn(IMG_MAP, key)`):
   * never an inherited member, and the same image as `imageForTitle` for every
   * other title.
   */
  function ImageForTitleOwn(title: Option<string>): (r: Thumbnail)
    ensures !r.Inherited?
    ensures r.Photo? <==> Normalize(title) in PhotoSlugs
    ensures Normalize(title) !in InheritedSlugs ==> r == ImageForTitle(title)
    ensures r.Generated? ==> r == Generated(Badge(FallbackLabel(title), "#0EA5E9", "#22C55E"), Caption(title))
  {
    var key := Normalize(title);
    assert BadgeConfig.Keys == PhotoSlugs;
    if key in PhotoSlugs then Photo(key)
    else Generated(Badge(FallbackLabel(title), "#0EA5E9", "#22C55E"), Caption(title))
  }

  /** `i < values.length ? values[i] : ''`. */
  function ValueAt(values: seq<string>, i: nat): string {
    if i < |values| then values[i] else ""
  }

  /** The reference reading of `h`: each string followed by its value, if it has one. */
  function Interleave(strings: seq<string>, values: seq<string>): string
    decreases |strings|
  {
    if |strings| == 0 then ""
    else Interleave(strings[..|strings| - 1], values) + strings[|strings| - 1] + ValueAt(values, |strings| - 1)
  }

  /** `h(strings, ...values)`, with its loop. */
  method H(strings: seq<string>, values: seq<string>) returns (out: string)
    ensures out == Interleave(strings, values)
  {
    out := "";
    var i := 0;
    while i < |strings|
      invariant 0 <= i <= |strings|
      invariant out == Interleave(strings[..i], values)
    {
      assert strings[..i + 1][..i] == strings[..i];
      out := out + strings[i] + ValueAt(values, i);
      i := i + 1;
    }
    assert strings[..|strings|] == strings;
  }

  /** Values beyond the strings are never used. */
  lemma {:induction false} InterleaveDropsExtraValues(strings: seq<string>, values: seq<string>)
    requires |strings| <= |values|
    ensures Interleave(strings, values) == Interleave(strings, values[..|strings|])
    decreases |strings|
  {
    if |strings| > 0 {
      var init := strings[..|strings| - 1];
      InterleaveDropsExtraValues(init, values);
      InterleaveDropsExtraValues(init, values[..|strings|]);
      assert values[..|strings|][..|init|] == values[..|init|];
    }
  }

  /**
   * A tagged template's shape, one string more than values: the last string
   * is appended alone after the last value.
   */
  lemma InterleaveTemplate(strings: seq<string>, values: seq<string>)
    requires |strings| == |values| + 1
    ensures Interleave(strings, values) ==
            Interleave(strings[..|values|], values) + strings[|values|]
  {
  }
}
