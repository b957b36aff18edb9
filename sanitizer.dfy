/** The stem sanitiser: every element of the stem paragraph loses its
    attributes, except images, which keep `src`, `alt` and their classes and
    get a responsive `style`, and `pre` blocks, which are left alone. */
module Sanitizer {
  import opened Wrappers
  import opened Strings
  import opened Html

  const SiteOrigin: string := "https://www.examtopics.com"
  const AssetsPrefix: string := "/assets/"
  const KeptImageAttrs: set<string> := {"src", "alt", "class"}
  const MaxWidth: string := "max-width:100%"
  const HeightAuto: string := "height:auto"

  /** What the sanitiser sees and rewrites of one element. */
  datatype Tag = Tag(name: string, classes: seq<string>, attrs: map<string, string>)

  function TagOf(n: Node): Tag
    requires n.Element?
  {
    Tag(n.name, n.classes, n.attrs)
  }

  /** The `style` an image ends with, given the `style` it has at that point. */
  function ResponsiveStyle(existing: string): string {
    var withWidth := if Contains(existing, MaxWidth) then existing else existing + ";" + MaxWidth + ";";
    var withHeight := if Contains(withWidth, HeightAuto) then withWidth else withWidth + ";" + HeightAuto + ";";
    Trim(withHeight, {';'})
  }

  lemma ContainsAppend(a: string, b: string, p: string)
    requires Contains(a, p) || Contains(b, p)
    ensures Contains(a + b, p)
  {
    ContainsAt(a, p);
    ContainsAt(b, p);
    ContainsAt(a + b, p);
    if Contains(a, p) {
      var i :| OccursAt(a, p, i);
      assert (a + b)[i..i + |p|] == a[i..i + |p|];
      assert OccursAt(a + b, p, i);
    } else {
      var i :| OccursAt(b, p, i);
      assert (a + b)[|a| + i..|a| + i + |p|] == b[i..i + |p|];
      assert OccursAt(a + b, p, |a| + i);
    }
  }

  /** `;rule;` holds `rule`. */
  lemma PaddedContains(rule: string)
    ensures Contains(";" + rule + ";", rule)
  {
    var padded := ";" + rule + ";";
    assert padded[1..1 + |rule|] == rule;
    assert OccursAt(padded, rule, 1);
    ContainsAt(padded, rule);
  }

  /** Appending `;rule;` to a style that lacks `rule` gives one that has it,
      and keeps whatever the style already held. */
  lemma AppendRule(style: string, rule: string, other: string)
    ensures Contains(style + ";" + rule + ";", rule)
    ensures Contains(style, other) ==> Contains(style + ";" + rule + ";", other)
  {
    PaddedContains(rule);
    assert style + ";" + rule + ";" == style + (";" + rule + ";");
    ContainsAppend(style, ";" + rule + ";", rule);
    if Contains(style, other) {
      ContainsAppend(style, ";" + rule + ";", other);
    }
  }

  /** Whatever style an image had, the result asks for both responsive sizing rules. */
  lemma ResponsiveStyleHasBoth(existing: string)
    ensures Contains(ResponsiveStyle(existing), MaxWidth)
    ensures Contains(ResponsiveStyle(existing), HeightAuto)
  {
    var withWidth := if Contains(existing, MaxWidth) then existing else existing + ";" + MaxWidth + ";";
    AppendRule(existing, MaxWidth, MaxWidth);
    assert Contains(withWidth, MaxWidth);
    var withHeight := if Contains(withWidth, HeightAuto) then withWidth else withWidth + ";" + HeightAuto + ";";
    AppendRule(withWidth, HeightAuto, MaxWidth);
    assert Contains(withHeight, MaxWidth) && Contains(withHeight, HeightAuto);
    assert ResponsiveStyle(existing) == Trim(withHeight, {';'});
    TrimKeepsOccurrence(withHeight, {';'}, MaxWidth);
    TrimKeepsOccurrence(withHeight, {';'}, HeightAuto);
  }

  /** The rewrite the source applies to one element. The image's `style` is
      looked up after the attributes were narrowed to `src`, `alt` and `class`,
      so the lookup always misses and any earlier `style` is discarded. */
  function SanitizeTag(t: Tag): Tag {
    if t.name == "img" then SanitizeImage(t)
    else if t.name == "pre" then t
    else Tag(t.name, [], map[])
  }

  function NarrowImageAttrs(attrs: map<string, string>): (r: map<string, string>)
    ensures r.Keys == attrs.Keys * KeptImageAttrs
    ensures forall k :: k in r ==> r[k] == attrs[k]
  {
    map k | k in attrs && k in KeptImageAttrs :: attrs[k]
  }

  function SanitizeImage(t: Tag): Tag {
    var kept := NarrowImageAttrs(t.attrs);
    var styled := kept["style" := ResponsiveStyle(if "style" in kept then kept["style"] else "")];
    var final :=
      if "src" in styled && StartsWith(styled["src"], AssetsPrefix)
      then styled["src" := SiteOrigin + styled["src"]]
      else styled;
    Tag(t.name, t.classes, final)
  }

  predicate StartsWith(s: string, p: string) { p <= s }

  /** The style every sanitised image carries. */
  const ImageStyle: string := "max-width:100%;;height:auto"

  lemma WidthRuleLacksHeight()
    ensures !Contains(";" + MaxWidth + ";", HeightAuto)
  {
    assert 'g' !in ";" + MaxWidth + ";" && 'g' in HeightAuto;
    NoOccurrenceOfForeignChar(";" + MaxWidth + ";", HeightAuto, 'g');
  }

  lemma TrimStartOne(s: string, drop: set<char>)
    requires |s| >= 2 && s[0] in drop && s[1] !in drop
    ensures TrimStart(s, drop) == s[1..]
  {
    assert TrimStart(s[1..], drop) == s[1..];
  }

  lemma TrimEndOne(s: string, drop: set<char>)
    requires |s| >= 2 && s[|s| - 1] in drop && s[|s| - 2] !in drop
    ensures TrimEnd(s, drop) == s[..|s| - 1]
  {
    assert TrimEnd(s[..|s| - 1], drop) == s[..|s| - 1];
  }

  lemma TrimOneEach(m: string, drop: set<char>)
    requires |m| >= 1 && m[0] !in drop && m[|m| - 1] !in drop && ';' in drop
    ensures Trim(";" + m + ";", drop) == m
  {
    var h := ";" + m + ";";
    TrimStartOne(h, drop);
    assert h[1..] == m + ";";
    TrimEndOne(m + ";", drop);
    assert (m + ";")[..|m|] == m;
  }

  lemma TrimBothRules(h: string)
    requires h == ";" + MaxWidth + ";" + ";" + HeightAuto + ";"
    ensures Trim(h, {';'}) == ImageStyle
  {
    assert h == ";" + ImageStyle + ";";
    TrimOneEach(ImageStyle, {';'});
  }

  /** An image whose `style` was dropped ends with exactly this style. */
  lemma ResponsiveStyleOfNothing()
    ensures ResponsiveStyle("") == ImageStyle
  {
    assert !Contains("", MaxWidth);
    assert "" + ";" + MaxWidth + ";" == ";" + MaxWidth + ";";
    WidthRuleLacksHeight();
    TrimBothRules(";" + MaxWidth + ";" + ";" + HeightAuto + ";");
  }

  lemma ImageKeys(t: Tag)
    ensures SanitizeImage(t).attrs.Keys == t.attrs.Keys * KeptImageAttrs + {"style"}
  {
  }

  lemma ImageStyleIsFixed(t: Tag)
    ensures "style" in SanitizeImage(t).attrs && SanitizeImage(t).attrs["style"] == ImageStyle
  {
    assert "style" !in KeptImageAttrs;
    ResponsiveStyleOfNothing();
  }

  lemma ImageSrc(t: Tag)
    ensures "src" in t.attrs ==>
      SanitizeImage(t).attrs["src"] ==
        (if StartsWith(t.attrs["src"], AssetsPrefix) then SiteOrigin + t.attrs["src"] else t.attrs["src"])
  {
    assert "src" in KeptImageAttrs && "src" != "style";
  }

  lemma ImageKeeps(t: Tag)
    ensures forall k :: k in t.attrs && k in KeptImageAttrs && k != "src" ==> SanitizeImage(t).attrs[k] == t.attrs[k]
  {
    assert "style" !in KeptImageAttrs;
  }

  /** What the sanitiser does to an image: it keeps its classes, `src` and
      `alt`, drops every other attribute, sets the fixed responsive style and
      makes site-relative asset addresses absolute. */
  lemma SanitizeImageSpec(t: Tag)
    ensures var r := SanitizeImage(t);
      && r.name == t.name
      && r.classes == t.classes
      && r.attrs.Keys == t.attrs.Keys * KeptImageAttrs + {"style"}
      && "style" in r.attrs && r.attrs["style"] == ImageStyle
      && Contains(r.attrs["style"], MaxWidth) && Contains(r.attrs["style"], HeightAuto)
      && (forall k :: k in t.attrs && k in KeptImageAttrs && k != "src" ==> r.attrs[k] == t.attrs[k])
      && ("src" in t.attrs ==>
            r.attrs["src"] == (if StartsWith(t.attrs["src"], AssetsPrefix) then SiteOrigin + t.attrs["src"] else t.attrs["src"]))
  {
    ImageKeys(t);
    ImageStyleIsFixed(t);
    ImageSrc(t);
    ImageKeeps(t);
    ResponsiveStyleOfNothing();
    ResponsiveStyleHasBoth("");
  }

  /** What the sanitiser promises, per element kind. */
  lemma SanitizeTagSpec(t: Tag)
    ensures var r := SanitizeTag(t);
      && r.name == t.name
      && (t.name == "img" ==> r == SanitizeImage(t) && "style" in r.attrs && r.attrs["style"] == ImageStyle)
      && (t.name == "pre" ==> r == t)
      && (t.name != "img" && t.name != "pre" ==> r.classes == [] && r.attrs == map[])
  {
    SanitizeImageSpec(t);
  }

  /** Sanitising twice is sanitising once: a rewritten `src` no longer starts
      with the site-relative prefix, and the style is recomputed from nothing. */
  lemma SanitizeTagIdempotent(t: Tag)
    ensures SanitizeTag(SanitizeTag(t)) == SanitizeTag(t)
  {
    if t.name == "img" {
      ImageIdempotent(t);
    }
  }

  /** A rewritten asset address is no longer site-relative. */
  lemma AbsoluteIsNotRelative(src: string)
    ensures !StartsWith(SiteOrigin + src, AssetsPrefix)
  {
    assert (SiteOrigin + src)[0] == 'h' != AssetsPrefix[0];
  }

  lemma ImageIdempotent(t: Tag)
    ensures SanitizeImage(SanitizeImage(t)) == SanitizeImage(t)
  {
    var r := SanitizeImage(t);
    var r2 := SanitizeImage(r);
    ImageKeysStable(t);
    ImageSrcStable(t);
    ImageOthersStable(t);
    forall k | k in r.attrs
      ensures r2.attrs[k] == r.attrs[k]
    {
      if k == "src" {
      }
    }
    assert r2.attrs == r.attrs;
    assert r2.name == r.name && r2.classes == r.classes;
  }

  lemma ImageKeysStable(t: Tag)
    ensures SanitizeImage(SanitizeImage(t)).attrs.Keys == SanitizeImage(t).attrs.Keys
  {
    ImageKeys(t);
    ImageKeys(SanitizeImage(t));
  }

  lemma ImageSrcStable(t: Tag)
    ensures var r := SanitizeImage(t);
      "src" in r.attrs ==> SanitizeImage(r).attrs["src"] == r.attrs["src"]
  {
    var r := SanitizeImage(t);
    SanitizeImageSpec(t);
    ImageSrc(r);
    if "src" in t.attrs && StartsWith(t.attrs["src"], AssetsPrefix) {
      AbsoluteIsNotRelative(t.attrs["src"]);
    }
  }

  lemma ImageOthersStable(t: Tag)
    ensures var r := SanitizeImage(t);
      forall k :: k in r.attrs && k != "src" ==> SanitizeImage(r).attrs[k] == r.attrs[k]
  {
    var r := SanitizeImage(t);
    ImageKeys(t);
    ImageStyleIsFixed(t);
    ImageStyleIsFixed(r);
    ImageKeeps(r);
  }

  // ---------------------------------------------------------------------
  // The whole stem

  /** The tags of a forest in the order `find_all(True)` lists them. */
  function Tags(ns: seq<Node>): seq<Tag>
    decreases ns
  {
    if ns == [] then []
    else (if ns[0].Element? then [TagOf(ns[0])] + Tags(ns[0].children) else []) + Tags(ns[1..])
  }

  /** Every element of the forest rewritten by `SanitizeTag`; text untouched. */
  function SanitizeForest(ns: seq<Node>): (r: seq<Node>)
    ensures |r| == |ns|
    decreases ns
  {
    if ns == [] then []
    else
      var head :=
        if ns[0].Text? then ns[0]
        else
          var t := SanitizeTag(TagOf(ns[0]));
          Element(t.name, t.classes, t.attrs, SanitizeForest(ns[0].children));
      [head] + SanitizeForest(ns[1..])
  }

  /** The list of tags with each one replaced by its sanitised form: the
      reference for the tree rewrite and for the loop over an array. */
  function SanitizeAll(ts: seq<Tag>): (r: seq<Tag>)
    ensures |r| == |ts|
    ensures forall i :: 0 <= i < |ts| ==> r[i] == SanitizeTag(ts[i])
  {
    seq(|ts|, i requires 0 <= i < |ts| => SanitizeTag(ts[i]))
  }

  /** A sanitised list is settled: each of its tags is its own sanitised
      form, so sanitising the list again changes nothing. */
  lemma SanitizeAllSettles(ts: seq<Tag>)
    ensures forall i :: 0 <= i < |ts| ==> SanitizeTag(SanitizeAll(ts)[i]) == SanitizeAll(ts)[i]
    ensures SanitizeAll(SanitizeAll(ts)) == SanitizeAll(ts)
  {
    forall i | 0 <= i < |ts| ensures SanitizeTag(SanitizeAll(ts)[i]) == SanitizeAll(ts)[i] {
      SanitizeTagIdempotent(ts[i]);
    }
  }

  lemma SanitizeAllAppend(a: seq<Tag>, b: seq<Tag>)
    ensures SanitizeAll(a + b) == SanitizeAll(a) + SanitizeAll(b)
  {
  }

  /** The tree rewrite visits exactly the elements `find_all(True)` lists, in
      that order, and rewrites each one as `SanitizeTag` says. */
  lemma {:induction false} TagsOfSanitized(ns: seq<Node>)
    ensures Tags(SanitizeForest(ns)) == SanitizeAll(Tags(ns))
    decreases ns
  {
    if ns != [] {
      var n := ns[0];
      var rest := SanitizeForest(ns[1..]);
      TagsOfSanitized(ns[1..]);
      if n.Text? {
        assert SanitizeForest(ns) == [n] + rest;
        TagsCons(n, rest);
      } else {
        var t := SanitizeTag(TagOf(n));
        var head := Element(t.name, t.classes, t.attrs, SanitizeForest(n.children));
        assert SanitizeForest(ns) == [head] + rest;
        TagsCons(head, rest);
        assert TagOf(head) == t;
        TagsOfSanitized(n.children);
        SanitizeAllAppend([TagOf(n)] + Tags(n.children), Tags(ns[1..]));
        SanitizeAllAppend([TagOf(n)], Tags(n.children));
      }
    }
  }

  lemma TagsCons(n: Node, rest: seq<Node>)
    ensures Tags([n] + rest) == (if n.Element? then [TagOf(n)] + Tags(n.children) else []) + Tags(rest)
  {
    assert ([n] + rest)[0] == n && ([n] + rest)[1..] == rest;
  }

  /** The sanitiser leaves every piece of text where it was. */
  lemma {:induction false} SanitizeKeepsText(ns: seq<Node>)
    ensures Texts(SanitizeForest(ns)) == Texts(ns)
    decreases ns
  {
    if ns != [] {
      SanitizeKeepsText(ns[1..]);
      var r := SanitizeForest(ns);
      assert r[1..] == SanitizeForest(ns[1..]);
      if ns[0].Element? {
        SanitizeKeepsText(ns[0].children);
      }
    }
  }

  /** The loop over `find_all(True)`: each element's attributes are replaced
      in place, one element per iteration. */
  method SanitizeInPlace(tags: array<Tag>)
    modifies tags
    ensures tags[..] == SanitizeAll(old(tags[..]))
  {
    var i := 0;
    while i < tags.Length
      invariant 0 <= i <= tags.Length
      invariant forall j :: 0 <= j < i ==> tags[j] == SanitizeTag(old(tags[j]))
      invariant forall j :: i <= j < tags.Length ==> tags[j] == old(tags[j])
    {
      tags[i] := SanitizeTag(tags[i]);
      i := i + 1;
    }
  }

  // ---------------------------------------------------------------------
  // The stem paragraph

  const StemParagraph: Selector := Selector("p", Some("card-text"))

  /** The stem emitted when the page has no stem paragraph. */
  const MissingStem: Node :=
    Element("p", [], map[], [Element("em", [], map[], [Text("Enunciado não encontrado.")])])

  /** The stem of a question container: its first stem paragraph, sanitised,
      or the placeholder. */
  function StemOf(container: Node): Node {
    match FindFirst(Kids(container), StemParagraph)
    case None => MissingStem
    case Some(p) => SanitizeForest([p])[0]
  }

  /** Without a stem paragraph the stem is the placeholder; with one, the stem
      is that paragraph with every tag sanitised and every text kept. */
  lemma StemOfSpec(container: Node)
    ensures FindFirst(Kids(container), StemParagraph).None? ==> StemOf(container) == MissingStem
    ensures FindFirst(Kids(container), StemParagraph).Some? ==>
      var p := FindFirst(Kids(container), StemParagraph).value;
      Texts([StemOf(container)]) == Texts([p]) && Tags([StemOf(container)]) == SanitizeAll(Tags([p]))
  {
    match FindFirst(Kids(container), StemParagraph)
    case None =>
    case Some(p) =>
      SanitizeKeepsText([p]);
      TagsOfSanitized([p]);
      assert SanitizeForest([p]) == [SanitizeForest([p])[0]];
  }
}
