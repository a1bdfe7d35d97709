/**
 * The live side of the plugin: selects and their created lists as objects,
 * the `data-rel` binding between them, the plugin call that turns every
 * matched select into a list, the delegation selector its click listener
 * uses, and the selection update a click on an item runs.
 */
module Selection {
  import opened Text
  import opened Render

  datatype Option<T> = None | Some(value: T)

  /** A `<select>` element: its options, its current value and its
      `data-rel` attribute, absent until the plugin binds it. */
  class Select {
    const options: seq<OptionEntry>
    var value: string
    var rel: Option<int>

    constructor (options: seq<OptionEntry>, value: string)
      ensures this.options == options && this.value == value && rel == None
    {
      this.options := options;
      this.value := value;
      rel := None;
    }
  }

  /** A created `<ul>`: its `data-rel` attribute, its items, and for each
      item whether it currently carries the selected class. */
  class MirrorList {
    var rel: Option<int>
    const items: seq<Item>
    const selected: array<bool>

    predicate Valid() {
      selected.Length == |items|
    }

    /** The list as parsed from its markup, before it is bound. */
    constructor (items: seq<Item>, flags: seq<bool>)
      requires |flags| == |items|
      ensures Valid() && this.items == items && rel == None
      ensures fresh(selected) && selected[..] == flags
    {
      this.items := items;
      selected := new bool[|flags|](j requires 0 <= j < |flags| => flags[j]);
      rel := None;
    }
  }

  /** Whether `select[data-rel="key"]` matches `s`. */
  predicate CarriesKey(s: Select, key: Option<int>)
    reads s
  {
    key.Some? && s.rel == key
  }

  /** How many selects of `doc` carry `key`. */
  function KeyCount(doc: seq<Select>, key: Option<int>): nat
    reads doc
  {
    if doc == [] then 0
    else KeyCount(doc[..|doc| - 1], key) + (if CarriesKey(doc[|doc| - 1], key) then 1 else 0)
  }

  /** `bindBoth`: the same key on the select and on its list. */
  method BindBoth(select: Select, list: MirrorList, index: int)
    modifies select, list
    ensures select.rel == Some(index) && list.rel == Some(index)
    ensures select.value == old(select.value)
  {
    select.rel := Some(index);
    list.rel := Some(index);
  }

  /** `turnIntoList`: build the markup, parse it into a list, mark the first
      item under `selectFirstIfNone`, and bind list and select with `i`. The
      select's value is not written. */
  method TurnIntoList(cfg: Config, select: Select, i: nat) returns (listHtml: string, list: MirrorList)
    modifies select
    ensures listHtml == ListHtml(cfg, select.options, i)
    ensures fresh(list) && fresh(list.selected) && list.Valid()
    ensures list.items == RenderItems(cfg, select.options)
    ensures list.selected[..] == InitialFlags(cfg, select.options)
    ensures select.rel == Some(i) && list.rel == Some(i)
    ensures select.value == old(select.value)
  {
    var opts := select.options;
    listHtml := BuildListHtml(cfg, opts, i);
    list := new MirrorList(RenderItems(cfg, opts), AttrFlags(opts));
    if cfg.selectFirstIfNone && |opts| > 0 {
      list.selected[0] := true;
    }
    BindBoth(select, list, i);
  }

  /** `markAsSelected`: clear the selected class on every item of the list,
      then set it on item `k`. */
  method MarkAsSelected(list: MirrorList, k: nat)
    requires k < list.selected.Length
    modifies list.selected
    ensures list.selected[..] == Only(list.selected.Length, k)
  {
    var j := 0;
    while j < list.selected.Length
      invariant 0 <= j <= list.selected.Length
      invariant forall m :: 0 <= m < j ==> !list.selected[m]
    {
      list.selected[j] := false;
      j := j + 1;
    }
    list.selected[k] := true;
  }

  /** `$document.find('select[data-rel="' + link + '"]').val(value).change()`:
      every select of `doc` carrying `link` takes `value`, and each of them
      gets one change notification, counted in `changes`. */
  method WriteBack(doc: seq<Select>, link: Option<int>, value: string) returns (changes: nat)
    requires forall a, b :: 0 <= a < b < |doc| ==> doc[a] != doc[b]
    modifies doc
    ensures changes == old(KeyCount(doc, link))
    ensures forall s :: s in doc ==> s.rel == old(s.rel)
    ensures forall s :: s in doc ==> s.value == (if CarriesKey(s, link) then value else old(s.value))
  {
    changes := 0;
    for j := 0 to |doc|
      invariant forall m :: 0 <= m < |doc| ==> doc[m].rel == old(doc[m].rel)
      invariant forall m :: 0 <= m < j ==>
                  doc[m].value == (if CarriesKey(doc[m], link) then value else old(doc[m].value))
      invariant forall m :: j <= m < |doc| ==> doc[m].value == old(doc[m].value)
      invariant changes == old(KeyCount(doc[..j], link))
    {
      assert doc[..j + 1][..j] == doc[..j];
      if CarriesKey(doc[j], link) {
        doc[j].value := value;
        changes := changes + 1;
      }
    }
    assert doc[..|doc|] == doc;
  }

  /** `updateSelect` on item `k` of `list`, with `doc` the selects of the
      page. An item that already carries the selected class changes nothing.
      Otherwise every select carrying the list's key takes the item's
      `data-val`, and item `k` becomes the only selected item of the list,
      even when no select carries the key. */
  method UpdateSelect(doc: seq<Select>, list: MirrorList, k: nat) returns (changes: nat)
    requires list.Valid() && k < |list.items|
    requires forall a, b :: 0 <= a < b < |doc| ==> doc[a] != doc[b]
    modifies doc, list.selected
    ensures forall s :: s in doc ==> s.rel == old(s.rel)
    ensures old(list.selected[k]) ==>
              changes == 0 && list.selected[..] == old(list.selected[..]) &&
              forall s :: s in doc ==> s.value == old(s.value)
    ensures !old(list.selected[k]) ==>
              changes == old(KeyCount(doc, list.rel)) &&
              list.selected[..] == Only(|list.items|, k) &&
              forall s :: s in doc ==>
                s.value == (if CarriesKey(s, list.rel) then list.items[k].value else old(s.value))
    ensures list.selected[k]
  {
    if list.selected[k] {
      return 0;
    }
    var link := list.rel;
    var value := list.items[k].value;
    changes := WriteBack(doc, link, value);
    MarkAsSelected(list, k);
  }

  /** Activating the same item twice leaves what the first activation left:
      the second finds the selected class and returns. The source installs
      one click listener per created list, so one click runs `updateSelect`
      that many times; this is why that is harmless. */
  method UpdateSelectTwice(doc: seq<Select>, list: MirrorList, k: nat) returns (first: nat, second: nat)
    requires list.Valid() && k < |list.items|
    requires forall a, b :: 0 <= a < b < |doc| ==> doc[a] != doc[b]
    modifies doc, list.selected
    ensures second == 0
    ensures !old(list.selected[k]) ==>
              list.selected[..] == Only(|list.items|, k) &&
              forall s :: s in doc ==>
                s.value == (if CarriesKey(s, list.rel) then list.items[k].value else old(s.value))
    ensures old(list.selected[k]) ==>
              list.selected[..] == old(list.selected[..]) && forall s :: s in doc ==> s.value == old(s.value)
  {
    first := UpdateSelect(doc, list, k);
    second := UpdateSelect(doc, list, k);
  }

  /** After an activation, a list that had at most one selected item has
      exactly one: the activated one. */
  lemma SingleSelectionAfterActivation(before: seq<bool>, after: seq<bool>, k: nat)
    requires k < |before| == |after|
    requires CountSelected(before) <= 1
    requires before[k] ==> after == before
    requires !before[k] ==> after == Only(|before|, k)
    ensures CountSelected(after) == 1 && after[k]
  {
    if before[k] {
      AtLeastOneSelected(before, k);
    } else {
      OnlyHasOneSelected(|before|, k);
    }
  }

  // ---------------------------------------------------------------------
  // The delegation selector
  // ---------------------------------------------------------------------

  /** The selector the click listener is delegated to:
      `'.' + itemClasses.replace(/\s+/g, '.')`. */
  function Selector(itemClasses: string): (r: string)
    ensures r != [] && r[0] == '.' && NoSpace(Regex, r)
    ensures NoSpace(Regex, itemClasses) ==> r == "." + itemClasses
  {
    "." + SpacesToDots(itemClasses)
  }

  /** The compound selector that requires every class of `classes`. */
  function ClassSelector(classes: seq<string>): string {
    if classes == [] then "" else "." + classes[0] + ClassSelector(classes[1..])
  }

  /** For item classes without leading or trailing `\s` characters, the
      selector requires exactly their maximal non-`\s` runs, in order. */
  lemma {:induction false} SelectorJoinsRuns(itemClasses: string)
    requires itemClasses != []
    requires !IsSpace(Regex, itemClasses[0]) && !IsSpace(Regex, itemClasses[|itemClasses| - 1])
    ensures Selector(itemClasses) == ClassSelector(Tokens(Regex, itemClasses))
    decreases |itemClasses|
  {
    var s := itemClasses;
    var w := Word(Regex, s);
    var r := s[|w|..];
    SpacesToDotsAfterWord(s);
    TokensAtWord(Regex, s);
    if r == [] {
      assert Tokens(Regex, r) == [];
      assert ClassSelector([w]) == "." + w + ClassSelector([]);
    } else {
      var t := DropSpaces(Regex, r);
      assert r[|r| - 1] == s[|s| - 1];
      assert t != [] && t[|t| - 1] == s[|s| - 1];
      TokensDropSpaces(Regex, r);
      assert SpacesToDots(r) == "." + SpacesToDots(t);
      SelectorJoinsRuns(t);
      calc {
        Selector(s);
        "." + (w + SpacesToDots(r));
        "." + (w + ("." + SpacesToDots(t)));
        { Assoc(".", w, Selector(t)); }
        ("." + w) + Selector(t);
        ("." + w) + ClassSelector(Tokens(Regex, t));
        ClassSelector([w] + Tokens(Regex, r));
      }
    }
  }

  /** For item classes without leading or trailing whitespace, and whose
      `\s` characters are all ASCII whitespace, the selector is the compound
      selector of exactly the classes an item carries, in order. */
  lemma SelectorRequiresEveryClass(itemClasses: string)
    requires itemClasses != []
    requires !IsSpace(Regex, itemClasses[0]) && !IsSpace(Regex, itemClasses[|itemClasses| - 1])
    requires AsciiBlanksOnly(itemClasses)
    ensures Selector(itemClasses) == ClassSelector(Tokens(Html, itemClasses))
  {
    SelectorJoinsRuns(itemClasses);
    TokensAgree(itemClasses);
  }

  /** A `\s` character that is not ASCII whitespace, such as U+00A0, stays
      inside the one class the item carries, yet the rewrite turns it into a
      dot: the selector then asks for two classes no item has. */
  lemma NonAsciiBlankSplitsItemClass(x: char, blank: char, y: char)
    requires !IsSpace(Regex, x) && !IsSpace(Regex, y)
    requires IsSpace(Regex, blank) && !IsSpace(Html, blank)
    ensures Tokens(Html, [x, blank, y]) == [[x, blank, y]]
    ensures Selector([x, blank, y]) == ['.', x, '.', y]
    ensures Selector([x, blank, y]) != ClassSelector(Tokens(Html, [x, blank, y]))
  {
    var c := [x, blank, y];
    HtmlSpaceIsRegexSpace(x);
    HtmlSpaceIsRegexSpace(y);
    assert NoSpace(Html, c);
    TokensOfWord(Html, c);
    RewriteAroundBlank(x, blank, y);
    ClassSelectorOne(c);
    assert Selector(c)[2] == '.' != blank == ClassSelector([c])[2];
  }

  lemma RewriteAroundBlank(x: char, blank: char, y: char)
    requires !IsSpace(Regex, x) && !IsSpace(Regex, y) && IsSpace(Regex, blank)
    ensures SpacesToDots([x, blank, y]) == [x, '.', y]
  {
    var c := [x, blank, y];
    assert c[1..] == [blank, y];
    assert c[1..][1..] == [y];
    assert [y][1..] == [];
    assert SpacesToDots([y]) == [y];
    assert DropSpaces(Regex, [blank, y]) == [y];
    assert SpacesToDots([blank, y]) == ['.', y];
  }

  lemma ClassSelectorOne(c: string)
    ensures ClassSelector([c]) == "." + c
  {
    var cs: seq<string> := [c];
    assert cs[1..] == [];
  }

  /** Item classes with leading or trailing whitespace, or none at all, give
      a selector that is not a valid class selector: a leading run becomes a
      second dot right after the first, a trailing run a final dot, and the
      empty string the bare `.`. */
  lemma SelectorOfPaddedClasses(itemClasses: string)
    ensures itemClasses == [] ==> Selector(itemClasses) == "."
    ensures itemClasses != [] && IsSpace(Regex, itemClasses[0]) ==>
              |Selector(itemClasses)| >= 2 && Selector(itemClasses)[..2] == ".."
    ensures Tokens(Regex, itemClasses) != [] && itemClasses != [] && IsSpace(Regex, itemClasses[|itemClasses| - 1]) ==>
              Selector(itemClasses)[|Selector(itemClasses)| - 1] == '.'
  {
    var c := itemClasses;
    if c == [] {
      assert SpacesToDots(c) == [];
    } else {
      if IsSpace(Regex, c[0]) {
        assert SpacesToDots(c) == "." + SpacesToDots(DropSpaces(Regex, c));
        LeadingDots(Selector(c), SpacesToDots(DropSpaces(Regex, c)));
      }
      if Tokens(Regex, c) != [] && IsSpace(Regex, c[|c| - 1]) {
        SpacesToDotsRuns(c);
        assert TrailDot(c) == ".";
        TrailingDot(Selector(c), LeadDot(c) + DotJoin(Tokens(Regex, c)));
      }
    }
  }

  lemma LeadingDots(sel: string, rest: string)
    requires sel == "." + ("." + rest)
    ensures |sel| >= 2 && sel[..2] == ".."
  {
  }

  lemma TrailingDot(sel: string, body: string)
    requires sel == "." + (body + ".")
    ensures sel[|sel| - 1] == '.'
  {
  }

  /** Under the default options the list carries the single root class
      `js-created-list`, its items the single class `js-created-list__item`,
      and the click listener is delegated to `.js-created-list__item`. */
  lemma DefaultsSelector()
    ensures Tokens(Html, RootClass(Defaults.classes)) == [DefaultRootClass]
    ensures Tokens(Html, Defaults.itemClasses) == [DefaultItemClass]
    ensures Selector(Defaults.itemClasses) == "." + DefaultItemClass
  {
    RootClassTokens(DefaultRootClass);
    DefaultItemClassIsOneToken();
  }

  // ---------------------------------------------------------------------
  // The plugin call
  // ---------------------------------------------------------------------

  /** What `turnIntoList` leaves behind for select `select` with index `i`:
      both bound with key `i`, the list holding the rendered items with
      their initial selected classes, `listHtml` its markup. */
  ghost predicate TurnedInto(cfg: Config, select: Select, list: MirrorList, listHtml: string, i: nat)
    reads select, list, list.selected
  {
    select.rel == Some(i) && list.rel == Some(i) && list.Valid() &&
    list.items == RenderItems(cfg, select.options) &&
    list.selected[..] == InitialFlags(cfg, select.options) &&
    listHtml == ListHtml(cfg, select.options, i)
  }

  /** The first `n` selects have been turned into `lists`, with `htmls` their
      markup, and no two of those lists share their flags array. */
  ghost predicate TurnedUpTo(cfg: Config, selects: seq<Select>, lists: seq<MirrorList>, htmls: seq<string>, n: nat)
    reads selects, lists, set m | 0 <= m < |lists| :: lists[m].selected
  {
    n <= |selects| && |lists| == |htmls| == n &&
    (forall m :: 0 <= m < n ==> TurnedInto(cfg, selects[m], lists[m], htmls[m], m)) &&
    (forall a, b :: 0 <= a < b < n ==> lists[a].selected != lists[b].selected)
  }

  /** One turn of the plugin's `each` loop: select `n` becomes list `n`. */
  method TurnNext(cfg: Config, selects: seq<Select>, lists: seq<MirrorList>, htmls: seq<string>, n: nat)
    returns (lists': seq<MirrorList>, htmls': seq<string>)
    requires n < |selects| && TurnedUpTo(cfg, selects, lists, htmls, n)
    requires forall a, b :: 0 <= a < b < |selects| ==> selects[a] != selects[b]
    modifies selects[n]
    ensures TurnedUpTo(cfg, selects, lists', htmls', n + 1)
    ensures lists' == lists + [lists'[n]]
    ensures selects[n].value == old(selects[n].value)
    ensures fresh(lists'[n]) && fresh(lists'[n].selected)
  {
    var listHtml, list := TurnIntoList(cfg, selects[n], n);
    lists', htmls' := lists + [list], htmls + [listHtml];
  }

  /** `$.fn.spSelectToList` over the matched selects, in order: select `i`
      gets list `i`, both bound with the `each` index `i`, so within one call
      each list's key is carried by its own select and by no other. No
      select's value is written. */
  method SpSelectToList(cfg: Config, selects: seq<Select>)
    returns (lists: seq<MirrorList>, htmls: seq<string>, selector: string)
    requires forall a, b :: 0 <= a < b < |selects| ==> selects[a] != selects[b]
    modifies selects
    ensures |lists| == |selects| && |htmls| == |selects|
    ensures forall i :: 0 <= i < |selects| ==>
              TurnedInto(cfg, selects[i], lists[i], htmls[i], i) &&
              selects[i].value == old(selects[i].value)
    ensures forall i :: 0 <= i < |lists| ==> fresh(lists[i]) && fresh(lists[i].selected)
    ensures forall i, j :: 0 <= i < j < |lists| ==> lists[i].selected != lists[j].selected
    ensures forall i, j :: 0 <= i < |lists| && 0 <= j < |selects| ==>
              (CarriesKey(selects[j], lists[i].rel) <==> i == j)
    ensures selector == Selector(cfg.itemClasses)
  {
    lists, htmls := [], [];
    for i := 0 to |selects|
      invariant TurnedUpTo(cfg, selects, lists, htmls, i)
      invariant forall m :: 0 <= m < |selects| ==> selects[m].value == old(selects[m].value)
      invariant forall m :: 0 <= m < i ==> fresh(lists[m]) && fresh(lists[m].selected)
    {
      ghost var before := lists;
      lists, htmls := TurnNext(cfg, selects, lists, htmls, i);
      assert forall m :: 0 <= m < i ==> lists[m] == before[m];
    }
    forall i, j | 0 <= i < |lists| && 0 <= j < |selects|
      ensures CarriesKey(selects[j], lists[i].rel) <==> i == j
    {
      assert TurnedInto(cfg, selects[i], lists[i], htmls[i], i);
      assert TurnedInto(cfg, selects[j], lists[j], htmls[j], j);
    }
    selector := "." + SpacesToDots(cfg.itemClasses);
  }

  /** The key is the `each` index, which restarts at 0 on every call: the
      first lists of two separate calls share key 0, so activating an item of
      the first list writes the value of the second call's select too. */
  method SeparateCallsShareKeys(cfg: Config, a: Select, b: Select)
    returns (la: MirrorList, lb: MirrorList)
    requires a != b
    modifies a, b
    ensures a.rel == Some(0) && b.rel == Some(0) && la.rel == Some(0) && lb.rel == Some(0)
    ensures CarriesKey(a, la.rel) && CarriesKey(b, la.rel)
  {
    var listsA, htmlsA, _ := SpSelectToList(cfg, [a]);
    var listsB, htmlsB, _ := SpSelectToList(cfg, [b]);
    assert TurnedInto(cfg, b, listsB[0], htmlsB[0], 0);
    la, lb := listsA[0], listsB[0];
  }
}
