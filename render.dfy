/**
 * The list renderer of `turnIntoList`: how a select's options become the
 * markup of a `<ul>` whose `<li>` items mirror them, and the item records that
 * parsing that markup yields. Options and items are values here, not DOM
 * nodes; whether an item carries the selected class is a boolean flag.
 */
module Render {
  import opened Text

  /** The root class every created list carries, whatever `classes` says. */
  const DefaultRootClass := "js-created-list"

  /** The plugin's options after merging. A JavaScript `false` (the default of
      `labelWrapTag` and `labelWrapClasses`) and an empty string are both
      falsy in the source and are both the empty string here. */
  datatype Config = Config(
    classes: string,
    itemClasses: string,
    labelWrapTag: string,
    labelWrapClasses: string,
    attributesToKeep: seq<string>,
    selectFirstIfNone: bool,
    selectedClass: string)

  /** The item class of the default options. */
  const DefaultItemClass := "js-created-list__item"

  const Defaults := Config(DefaultRootClass, DefaultItemClass, "", "", [], false, "is-selected")

  /** One `<option>`: its value, its text, whether it has a `selected`
      attribute, and the attributes it carries. */
  datatype OptionEntry = OptionEntry(
    value: string,
    text: string,
    hasSelected: bool,
    attrs: map<string, string>)

  datatype Attr = Attr(name: string, value: string)

  /** One `<li>` apart from its class: its `data-val`, the attributes kept
      from its option, and its label markup. */
  datatype Item = Item(value: string, attrs: seq<Attr>, labelMarkup: string)

  // ---------------------------------------------------------------------
  // Root class
  // ---------------------------------------------------------------------

  /** The class attribute of the created `<ul>`: the caller's classes, a space,
      and the default root class unless the caller's classes are exactly it. */
  function RootClass(classes: string): string {
    classes + " " + (if classes != DefaultRootClass then DefaultRootClass else "")
  }

  lemma DefaultRootClassIsOneToken()
    ensures Tokens(Html, DefaultRootClass) == [DefaultRootClass]
  {
    assert NoSpace(Html, DefaultRootClass);
    TokensOfWord(Html, DefaultRootClass);
  }

  lemma DefaultItemClassIsOneToken()
    ensures NoSpace(Regex, DefaultItemClass) && Tokens(Html, DefaultItemClass) == [DefaultItemClass]
  {
    assert NoSpace(Regex, DefaultItemClass);
    NoRegexSpaceNoHtmlSpace(DefaultItemClass);
    TokensOfWord(Html, DefaultItemClass);
  }

  /** The root list always carries the default class as a class token, after
      the caller's own; when the caller's classes are the default it carries
      it once. */
  lemma RootClassTokens(classes: string)
    ensures Tokens(Html, RootClass(classes)) ==
            Tokens(Html, classes) + (if classes == DefaultRootClass then [] else [DefaultRootClass])
    ensures DefaultRootClass in Tokens(Html, RootClass(classes))
    ensures classes == DefaultRootClass ==> Tokens(Html, RootClass(classes)) == [DefaultRootClass]
  {
    var tail := if classes != DefaultRootClass then DefaultRootClass else "";
    assert RootClass(classes) == classes + [' '] + tail;
    TokensSplit(Html, classes, ' ', tail);
    DefaultRootClassIsOneToken();
    assert Tokens(Html, "") == [];
  }

  // ---------------------------------------------------------------------
  // Item class
  // ---------------------------------------------------------------------

  /** The class attribute of an `<li>`: the item classes, and the selected
      class after a space when the item is selected. */
  function ClassAttr(cfg: Config, selected: bool): string {
    cfg.itemClasses + (if selected then " " + cfg.selectedClass else "")
  }

  /** An item's class tokens are the item classes' tokens, followed by the
      selected class's tokens exactly when it is selected. */
  lemma ClassAttrTokens(cfg: Config, selected: bool)
    ensures Tokens(Html, ClassAttr(cfg, selected)) ==
            Tokens(Html, cfg.itemClasses) + (if selected then Tokens(Html, cfg.selectedClass) else [])
  {
    if selected {
      assert ClassAttr(cfg, selected) == cfg.itemClasses + [' '] + cfg.selectedClass;
      TokensSplit(Html, cfg.itemClasses, ' ', cfg.selectedClass);
    } else {
      assert ClassAttr(cfg, selected) == cfg.itemClasses;
    }
  }

  // ---------------------------------------------------------------------
  // Kept attributes
  // ---------------------------------------------------------------------

  /** The attributes of an option named in `keep`, in the order of `keep`,
      leaving out the names the option does not carry. */
  function KeptAttrs(keep: seq<string>, present: map<string, string>): (r: seq<Attr>)
    ensures |r| <= |keep|
    ensures forall a :: a in r ==> a.name in keep && a.name in present && a.value == present[a.name]
    ensures forall n :: n in keep && n in present ==> Attr(n, present[n]) in r
  {
    if keep == [] then []
    else KeptAttr(keep[0], present) + KeptAttrs(keep[1..], present)
  }

  function KeptAttr(name: string, present: map<string, string>): seq<Attr> {
    if name in present then [Attr(name, present[name])] else []
  }

  lemma {:induction false} KeptAttrsAppend(k1: seq<string>, k2: seq<string>, present: map<string, string>)
    ensures KeptAttrs(k1 + k2, present) == KeptAttrs(k1, present) + KeptAttrs(k2, present)
  {
    if k1 != [] {
      assert (k1 + k2)[1..] == k1[1..] + k2;
      KeptAttrsAppend(k1[1..], k2, present);
      Assoc(KeptAttr(k1[0], present), KeptAttrs(k1[1..], present), KeptAttrs(k2, present));
    } else {
      assert k1 + k2 == k2;
    }
  }

  /** When the option carries every listed attribute, all of them are kept,
      in the listed order with the option's values; when it carries none of
      them, nothing is kept. */
  lemma {:induction false} KeptAttrsExtremes(keep: seq<string>, present: map<string, string>)
    ensures (forall n :: n in keep ==> n in present) ==>
              |KeptAttrs(keep, present)| == |keep| &&
              forall i :: 0 <= i < |keep| ==> KeptAttrs(keep, present)[i] == Attr(keep[i], present[keep[i]])
    ensures (forall n :: n in keep ==> n !in present) ==> KeptAttrs(keep, present) == []
  {
    if keep != [] {
      KeptAttrsExtremes(keep[1..], present);
      if forall n :: n in keep ==> n in present {
        assert keep[0] in keep;
        forall i | 0 <= i < |keep|
          ensures KeptAttrs(keep, present)[i] == Attr(keep[i], present[keep[i]])
        {
          if i > 0 {
            assert keep[1..][i - 1] == keep[i];
          }
        }
      }
      if forall n :: n in keep ==> n !in present {
        assert keep[0] in keep;
      }
    }
  }

  /** The markup of one attribute, ` name="value"`, unescaped. */
  function AttrHtml(a: Attr): string {
    " " + a.name + "=\"" + a.value + "\""
  }

  /** The markup of a list of attributes, one after the other. */
  function AttrsHtml(attrs: seq<Attr>): string {
    if attrs == [] then "" else AttrHtml(attrs[0]) + AttrsHtml(attrs[1..])
  }

  lemma {:induction false} AttrsHtmlAppend(a1: seq<Attr>, a2: seq<Attr>)
    ensures AttrsHtml(a1 + a2) == AttrsHtml(a1) + AttrsHtml(a2)
  {
    if a1 != [] {
      assert (a1 + a2)[1..] == a1[1..] + a2;
      AttrsHtmlAppend(a1[1..], a2);
      Assoc(AttrHtml(a1[0]), AttrsHtml(a1[1..]), AttrsHtml(a2));
    } else {
      assert a1 + a2 == a2;
    }
  }

  /** Keeping one more listed name appends that name's markup, if any. */
  lemma KeptAttrsHtmlStep(keep: seq<string>, i: nat, present: map<string, string>)
    requires i < |keep|
    ensures AttrsHtml(KeptAttrs(keep[..i + 1], present)) ==
            AttrsHtml(KeptAttrs(keep[..i], present)) +
            (if keep[i] in present then AttrHtml(Attr(keep[i], present[keep[i]])) else "")
  {
    assert keep[..i + 1] == keep[..i] + [keep[i]];
    KeptAttrsAppend(keep[..i], [keep[i]], present);
    assert KeptAttrs([keep[i]], present) == KeptAttr(keep[i], present);
    AttrsHtmlAppend(KeptAttrs(keep[..i], present), KeptAttr(keep[i], present));
    if keep[i] in present {
      var a := Attr(keep[i], present[keep[i]]);
      assert AttrsHtml([a]) == AttrHtml(a) + AttrsHtml([]);
    }
  }

  /** The `for` loop of `turnIntoList` that accumulates the kept attributes
      of one option. */
  method KeptAttributesHtml(keep: seq<string>, present: map<string, string>) returns (attributes: string)
    ensures attributes == AttrsHtml(KeptAttrs(keep, present))
  {
    attributes := "";
    if |keep| > 0 {
      for i := 0 to |keep|
        invariant attributes == AttrsHtml(KeptAttrs(keep[..i], present))
      {
        var attr := keep[i];
        KeptAttrsHtmlStep(keep, i, present);
        if attr in present {
          attributes := attributes + (" " + attr + "=\"" + present[attr] + "\"");
        }
      }
      assert keep[..|keep|] == keep;
    }
  }

  // ---------------------------------------------------------------------
  // Label
  // ---------------------------------------------------------------------

  /** The opening wrap tag, with a class attribute only when wrap classes are
      given. */
  function OpenTag(cfg: Config): string {
    "<" + cfg.labelWrapTag
      + (if |cfg.labelWrapClasses| > 0 then " class=\"" + cfg.labelWrapClasses + "\"" else "")
      + ">"
  }

  function CloseTag(cfg: Config): string {
    "</" + cfg.labelWrapTag + ">"
  }

  /** The label as it appears inside the `<li>`: wrapped in the configured
      tag when there is one, bare otherwise. */
  function LabelMarkup(cfg: Config, caption: string): string {
    if cfg.labelWrapTag != "" then OpenTag(cfg) + caption + CloseTag(cfg) else caption
  }

  /** Reading the label back out of its markup, knowing the configuration. */
  function UnwrapLabel(cfg: Config, markup: string): (caption: string)
    requires cfg.labelWrapTag != "" ==> |OpenTag(cfg)| + |CloseTag(cfg)| <= |markup|
  {
    if cfg.labelWrapTag != "" then markup[|OpenTag(cfg)|..|markup| - |CloseTag(cfg)|] else markup
  }

  /** The label survives its wrapping: unwrapping gives the label back, the
      markup is the label alone exactly when no wrap tag is set, and the
      opening tag carries a class attribute exactly when wrap classes are
      given. */
  lemma LabelRoundTrip(cfg: Config, caption: string)
    ensures cfg.labelWrapTag != "" ==> |OpenTag(cfg)| + |CloseTag(cfg)| <= |LabelMarkup(cfg, caption)|
    ensures UnwrapLabel(cfg, LabelMarkup(cfg, caption)) == caption
    ensures LabelMarkup(cfg, caption) == caption <==> cfg.labelWrapTag == ""
    ensures cfg.labelWrapTag != "" && cfg.labelWrapClasses == "" ==>
              LabelMarkup(cfg, caption) == "<" + cfg.labelWrapTag + ">" + caption + "</" + cfg.labelWrapTag + ">"
    ensures cfg.labelWrapTag != "" && cfg.labelWrapClasses != "" ==>
              LabelMarkup(cfg, caption) ==
              "<" + cfg.labelWrapTag + " class=\"" + cfg.labelWrapClasses + "\">" + caption + "</" + cfg.labelWrapTag + ">"
  {
    if cfg.labelWrapTag != "" {
      var m := LabelMarkup(cfg, caption);
      assert m == OpenTag(cfg) + caption + CloseTag(cfg);
      assert m[|OpenTag(cfg)|..|m| - |CloseTag(cfg)|] == caption;
      assert |m| > |caption|;
    }
  }

  // ---------------------------------------------------------------------
  // Items
  // ---------------------------------------------------------------------

  function RenderItem(cfg: Config, o: OptionEntry): Item {
    Item(o.value, KeptAttrs(cfg.attributesToKeep, o.attrs), LabelMarkup(cfg, o.text))
  }

  /** The item records of the created list: one per option, in option order,
      each with its option's value, the kept attributes and the label markup. */
  function RenderItems(cfg: Config, opts: seq<OptionEntry>): (items: seq<Item>)
    ensures |items| == |opts|
    ensures forall k :: 0 <= k < |opts| ==>
              items[k].value == opts[k].value &&
              items[k].attrs == KeptAttrs(cfg.attributesToKeep, opts[k].attrs) &&
              items[k].labelMarkup == LabelMarkup(cfg, opts[k].text)
  {
    seq(|opts|, k requires 0 <= k < |opts| => RenderItem(cfg, opts[k]))
  }

  /** The `selected` attributes of the options, as item flags. */
  function AttrFlags(opts: seq<OptionEntry>): seq<bool> {
    seq(|opts|, k requires 0 <= k < |opts| => opts[k].hasSelected)
  }

  /** Which items carry the selected class once the list exists: those whose
      option has a `selected` attribute, and, under `selectFirstIfNone`, the
      first item whatever the others are. */
  function InitialFlags(cfg: Config, opts: seq<OptionEntry>): (flags: seq<bool>)
    ensures |flags| == |opts|
    ensures forall k :: 0 <= k < |opts| ==>
              (flags[k] <==> opts[k].hasSelected || (cfg.selectFirstIfNone && k == 0))
  {
    var fromAttrs := AttrFlags(opts);
    if cfg.selectFirstIfNone && |opts| > 0 then fromAttrs[0 := true] else fromAttrs
  }

  /** The number of items that carry the selected class. */
  function CountSelected(flags: seq<bool>): nat {
    if flags == [] then 0 else (if flags[0] then 1 else 0) + CountSelected(flags[1..])
  }

  /** The flags of a list in which exactly item `k` is selected. */
  function Only(n: nat, k: nat): seq<bool> {
    seq(n, j requires 0 <= j < n => j == k)
  }

  lemma {:induction false} OnlyHasOneSelected(n: nat, k: nat)
    requires k < n
    ensures CountSelected(Only(n, k)) == 1
    ensures forall j :: 0 <= j < n ==> (Only(n, k)[j] <==> j == k)
  {
    NoneSelected(Only(n, k)[k + 1..]);
    CountSplit(Only(n, k), k);
  }

  lemma {:induction false} NoneSelected(flags: seq<bool>)
    requires forall j :: 0 <= j < |flags| ==> !flags[j]
    ensures CountSelected(flags) == 0
  {
    if flags != [] {
      NoneSelected(flags[1..]);
    }
  }

  /** Splitting the count around item `k`, with nothing selected before it. */
  lemma {:induction false} CountSplit(flags: seq<bool>, k: nat)
    requires k < |flags|
    requires forall j :: 0 <= j < k ==> !flags[j]
    ensures CountSelected(flags) == (if flags[k] then 1 else 0) + CountSelected(flags[k + 1..])
  {
    if k > 0 {
      CountSplit(flags[1..], k - 1);
      assert flags[1..][k..] == flags[k + 1..];
    }
  }

  /** Two distinct selected items make a count of at least two. */
  lemma {:induction false} TwoSelected(flags: seq<bool>, i: nat, j: nat)
    requires i < j < |flags| && flags[i] && flags[j]
    ensures CountSelected(flags) >= 2
  {
    if i > 0 {
      TwoSelected(flags[1..], i - 1, j - 1);
    } else {
      AtLeastOneSelected(flags[1..], j - 1);
    }
  }

  lemma {:induction false} AtLeastOneSelected(flags: seq<bool>, j: nat)
    requires j < |flags| && flags[j]
    ensures CountSelected(flags) >= 1
  {
    if j > 0 {
      AtLeastOneSelected(flags[1..], j - 1);
    }
  }

  /** `selectFirstIfNone` marks the first item even when a later option is
      already selected, so the list then starts with two selected items. */
  lemma SelectFirstIfNoneMarksFirstAnyway(cfg: Config, opts: seq<OptionEntry>, j: nat)
    requires cfg.selectFirstIfNone && 0 < j < |opts| && opts[j].hasSelected
    ensures CountSelected(InitialFlags(cfg, opts)) >= 2
  {
    TwoSelected(InitialFlags(cfg, opts), 0, j);
  }

  // ---------------------------------------------------------------------
  // Markup
  // ---------------------------------------------------------------------

  /** The markup of one `<li>`. Nothing in it is escaped. */
  function LiHtml(cfg: Config, item: Item, selected: bool): string {
    "<li class=\"" + ClassAttr(cfg, selected) + "\" data-val=\"" + item.value + "\""
      + AttrsHtml(item.attrs) + ">" + item.labelMarkup + "</li>"
  }

  function OptionHtml(cfg: Config, o: OptionEntry): string {
    LiHtml(cfg, RenderItem(cfg, o), o.hasSelected)
  }

  /** The `<li>` markup of all options, in option order. */
  function ItemsHtml(cfg: Config, opts: seq<OptionEntry>): string {
    if opts == [] then "" else OptionHtml(cfg, opts[0]) + ItemsHtml(cfg, opts[1..])
  }

  /** The opening `<ul>` tag of list number `i`. */
  function UlOpen(cfg: Config, i: nat): string {
    "<ul class=\"" + RootClass(cfg.classes) + "\" id=\"js-created-list-" + DecimalString(i) + "\">"
  }

  function ListHtml(cfg: Config, opts: seq<OptionEntry>, i: nat): string {
    UlOpen(cfg, i) + ItemsHtml(cfg, opts) + "</ul>"
  }

  lemma {:induction false} ItemsHtmlAppend(cfg: Config, o1: seq<OptionEntry>, o2: seq<OptionEntry>)
    ensures ItemsHtml(cfg, o1 + o2) == ItemsHtml(cfg, o1) + ItemsHtml(cfg, o2)
  {
    if o1 != [] {
      assert (o1 + o2)[1..] == o1[1..] + o2;
      ItemsHtmlAppend(cfg, o1[1..], o2);
      Assoc(OptionHtml(cfg, o1[0]), ItemsHtml(cfg, o1[1..]), ItemsHtml(cfg, o2));
    } else {
      assert o1 + o2 == o2;
    }
  }

  /** The list markup holds one `<li>` per option, in option order: option
      `k`'s item stands between the items of the options before it and those
      after it. */
  lemma ListHtmlItemAt(cfg: Config, opts: seq<OptionEntry>, i: nat, k: nat)
    requires k < |opts|
    ensures ListHtml(cfg, opts, i) ==
            UlOpen(cfg, i) + ItemsHtml(cfg, opts[..k])
              + LiHtml(cfg, RenderItem(cfg, opts[k]), opts[k].hasSelected)
              + ItemsHtml(cfg, opts[k + 1..]) + "</ul>"
  {
    var u, before, li, after := UlOpen(cfg, i), ItemsHtml(cfg, opts[..k]), OptionHtml(cfg, opts[k]), ItemsHtml(cfg, opts[k + 1..]);
    assert opts == opts[..k] + opts[k..];
    ItemsHtmlAppend(cfg, opts[..k], opts[k..]);
    assert opts[k..][1..] == opts[k + 1..];
    assert ItemsHtml(cfg, opts[k..]) == li + after;
    calc {
      ListHtml(cfg, opts, i);
      u + (before + (li + after)) + "</ul>";
      { Assoc(before, li, after); }
      u + ((before + li) + after) + "</ul>";
      { Assoc(u, before + li, after); Assoc(u, before, li); }
      u + before + li + after + "</ul>";
    }
  }

  /** A select without options gives an empty list. */
  lemma EmptyListHtml(cfg: Config, i: nat)
    ensures ListHtml(cfg, [], i) == UlOpen(cfg, i) + "</ul>"
  {
  }

  /** Lists built with distinct indices have distinct `id`s. */
  lemma UlOpenDistinct(cfg: Config, i: nat, j: nat)
    requires i != j
    ensures UlOpen(cfg, i) != UlOpen(cfg, j)
  {
    var p := "<ul class=\"" + RootClass(cfg.classes) + "\" id=\"js-created-list-";
    var q := "\">";
    assert UlOpen(cfg, i) == p + DecimalString(i) + q;
    assert UlOpen(cfg, j) == p + DecimalString(j) + q;
    if UlOpen(cfg, i) == UlOpen(cfg, j) {
      var u := UlOpen(cfg, i);
      assert |DecimalString(i)| == |DecimalString(j)|;
      assert DecimalString(i) == u[|p|..|p| + |DecimalString(i)|] == DecimalString(j);
      DecimalInjective(i, j);
    }
  }

  lemma ItemsHtmlStep(cfg: Config, opts: seq<OptionEntry>, o: nat)
    requires o < |opts|
    ensures ItemsHtml(cfg, opts[..o + 1]) == ItemsHtml(cfg, opts[..o]) + OptionHtml(cfg, opts[o])
  {
    ItemsHtmlAppend(cfg, opts[..o], [opts[o]]);
    assert opts[..o + 1] == opts[..o] + [opts[o]];
    assert ItemsHtml(cfg, [opts[o]]) == OptionHtml(cfg, opts[o]) + ItemsHtml(cfg, []);
  }

  /** The `each` loop of `turnIntoList` that builds the list markup, item by
      item; the `selectFirstIfNone` pass runs later, on the parsed list. */
  method BuildListHtml(cfg: Config, opts: seq<OptionEntry>, i: nat) returns (listHtml: string)
    ensures listHtml == ListHtml(cfg, opts, i)
  {
    listHtml := UlOpen(cfg, i);
    for o := 0 to |opts|
      invariant listHtml == UlOpen(cfg, i) + ItemsHtml(cfg, opts[..o])
    {
      var option := opts[o];
      var attributes := KeptAttributesHtml(cfg.attributesToKeep, option.attrs);
      var tag0, tag1 := "", "";
      if cfg.labelWrapTag != "" {
        tag0 := OpenTag(cfg);
        tag1 := CloseTag(cfg);
      }
      var liHtml := "<li class=\"" + ClassAttr(cfg, option.hasSelected)
        + "\" data-val=\"" + option.value + "\"" + attributes + ">"
        + (tag0 + option.text + tag1) + "</li>";
      ghost var item := RenderItem(cfg, option);
      assert tag0 + option.text + tag1 == item.labelMarkup;
      assert attributes == AttrsHtml(item.attrs);
      assert liHtml == LiHtml(cfg, item, option.hasSelected);
      ItemsHtmlStep(cfg, opts, o);
      listHtml := listHtml + liHtml;
      Assoc(UlOpen(cfg, i), ItemsHtml(cfg, opts[..o]), liHtml);
    }
    assert opts[..|opts|] == opts;
    listHtml := listHtml + "</ul>";
  }
}
