# spSelectToList, modelled in Dafny

`spSelectToList` is a jQuery plugin that turns each matched `<select>` into a
`<ul>` list. Each `<li>` of the list mirrors one `<option>`. It carries the
option's value in `data-val`, the option's text (optionally wrapped in a
configurable tag), and any option attributes named in `attributesToKeep`.
The list and the select are bound through a shared `data-rel` key, which is
the index of the `each` loop. For every select it turns, the plugin also
installs a click listener on the document, delegated to a selector built from
the item classes, so one call with several selects installs several
listeners. A click on an item that is not already selected writes the item's
value into every select with the list's key. It then makes that item the only
one in its list with the selected class.

The project has three modules:

- `Text` (`text.dfy`) holds the string behaviour the plugin relies on
  implicitly:
  - two whitespace sets: the `\s` class of JavaScript regular expressions,
    and the ASCII whitespace (tab, line feed, form feed, carriage return,
    space) at which HTML splits a class attribute;
  - how a class attribute splits into class tokens at ASCII whitespace;
  - the `replace(/\s+/g, '.')` rewrite, which splits at `\s`;
  - the decimal rendering of the loop index inside the list's `id`.
- `Render` (`render.dfy`) covers how `turnIntoList` renders a select's
  options. It has two parts:
  - the markup string, built by a loop (`BuildListHtml`, `KeptAttributesHtml`)
    and specified by functions (`ListHtml`, `ItemsHtml`, `LiHtml`);
  - the item records and initial selected flags of the parsed list
    (`RenderItems`, `InitialFlags`).
- `Selection` (`selection.dfy`) holds the live objects:
  - `Select`, whose value and `data-rel` change;
  - `MirrorList`, whose `selected` array holds, for each item, whether it
    carries the selected class.

  It also holds the plugin call, the click selector and the click handler
  (`UpdateSelect`).

The plugin's options are an immutable `Config` value, and `Defaults` gives
the defaults. The JavaScript `false` defaults of `labelWrapTag` and
`labelWrapClasses` are both falsy in the source, so both are modelled as the
empty string.

## Model

| member | source | states |
|---|---|---|
| Render.RootClassTokens | sp.select-to-list.js:42-45 | The `<ul>` class tokens are the caller's `classes` tokens followed by `js-created-list`. The default class is always present, and it appears once when `classes` is exactly the default. |
| Render.ClassAttrTokens | sp.select-to-list.js:71-72 | An `<li>`'s class tokens are the item-class tokens, followed by the selected-class tokens exactly when the option has a `selected` attribute. |
| Render.KeptAttrs | sp.select-to-list.js:51-61 | Kept attributes are at most as many as the names listed. Each kept attribute is a listed name the option carries, with the option's value. Every listed name the option carries is kept. |
| Render.KeptAttrsExtremes | sp.select-to-list.js:51-61 | When the option carries every listed name, all names are kept in listed order with their values. When it carries none, nothing is kept. |
| Render.KeptAttributesHtml | sp.select-to-list.js:51-61 | The attribute loop yields the markup ` name="value"` of exactly the kept attributes, in listed order. |
| Render.LabelRoundTrip | sp.select-to-list.js:62-70 | The label can be unwrapped back out of its markup. The markup is the bare label exactly when no wrap tag is set. With a wrap tag, the label is wrapped in `<tag>`…`</tag>` without wrap classes, and in `<tag class="classes">`…`</tag>` with them. |
| Render.RenderItems | sp.select-to-list.js:46-76 | There is one item per option, in option order. Each item has the option's value as `data-val`, its kept attributes and its label markup. |
| Render.InitialFlags | sp.select-to-list.js:79-81 | Item `k` starts selected exactly when its option has a `selected` attribute, or when `selectFirstIfNone` holds and `k` is 0. |
| Render.SelectFirstIfNoneMarksFirstAnyway | sp.select-to-list.js:79-81 | With `selectFirstIfNone`, a select whose later option is selected starts with at least two selected items, because the first item is marked unconditionally. |
| Render.BuildListHtml | sp.select-to-list.js:44-77 | The markup-building loop produces exactly the list markup `ListHtml`. |
| Render.ListHtmlItemAt | sp.select-to-list.js:44-77 | In the list markup, option `k`'s `<li>` comes after the items of the earlier options and before those of the later ones, between the `<ul>` opening tag and `</ul>`. |
| Render.EmptyListHtml | sp.select-to-list.js:44-77 | A select with no options gives an empty `<ul>`. |
| Render.UlOpenDistinct | sp.select-to-list.js:44-45 | Lists built with different loop indices have different `id`s. |
| Render.OnlyHasOneSelected | sp.select-to-list.js:97-101 | After `markAsSelected` on item `k`, exactly one item is selected, and it is item `k`. |
| Text.DecimalRoundTrip | sp.select-to-list.js:45 | The decimal numeral that index concatenation writes reads back as the index. |
| Text.DecimalInjective | sp.select-to-list.js:45 | Different indices are written as different numerals. |
| Text.SpacesToDots | sp.select-to-list.js:163 | The rewrite leaves no `\s` character and never lengthens the string. It leaves a string without `\s` characters unchanged. |
| Text.SpacesToDotsAfterWord | sp.select-to-list.js:163 | The rewrite keeps a leading class name as it is and rewrites only what follows it. |
| Text.SpacesToDotsRuns | sp.select-to-list.js:163 | For every string, the rewrite is its maximal runs of non-`\s` characters joined by single dots, with one leading dot for a leading `\s` run and one trailing dot for a trailing run; a string of `\s` characters only becomes a single dot. |
| Text.TokensAgree | sp.select-to-list.js:71-72 | When every `\s` character of a string is ASCII whitespace, splitting it at `\s` runs and splitting it into class tokens give the same tokens. |
| Selection.MirrorList.constructor | sp.select-to-list.js:78 | The parsed list holds the rendered items with their initial flags and has no key yet. |
| Selection.BindBoth | sp.select-to-list.js:27-30 | The select and the list both get the key `index`, and the select's value is untouched. |
| Selection.TurnIntoList | sp.select-to-list.js:40-87 | Produces the list markup, a fresh list of the rendered items with their initial selected flags, and the key `i` on both the list and the select. The select's value is unchanged. |
| Selection.MarkAsSelected | sp.select-to-list.js:97-101 | Afterwards item `k` is the only selected item of the list. |
| Selection.WriteBack | sp.select-to-list.js:118-122 | Every select carrying the list's key takes the value, and no other select changes. Keys are unchanged. One change notification is sent per matching select. |
| Selection.UpdateSelect | sp.select-to-list.js:114-124 | An item that is already selected changes nothing and sends no notification. Otherwise:<br>- every select carrying the list's key gets the item's `data-val`, and no other select changes;<br>- one notification is sent per such select;<br>- the item becomes the only selected item, even when no select carries the key.<br>The item is selected afterwards in both cases. |
| Selection.UpdateSelectTwice | sp.select-to-list.js:162-169 | A second handler run for the same click returns at the guard: no notification and no further change. Several listeners reacting to one click are therefore harmless. |
| Selection.SingleSelectionAfterActivation | sp.select-to-list.js:97-124 | A list with at most one selected item has exactly one after a click, and it is the clicked item. |
| Selection.Selector | sp.select-to-list.js:163 | The delegation selector starts with `.` and contains no `\s` character. For a single class it is `.` followed by that class. |
| Selection.SelectorRequiresEveryClass | sp.select-to-list.js:71-163 | For item classes that neither start nor end with a `\s` character and whose `\s` characters are all ASCII whitespace, the selector is the compound class selector of exactly the class tokens an item carries, in order. |
| Selection.NonAsciiBlankSplitsItemClass | sp.select-to-list.js:71-163 | A `\s` character outside ASCII whitespace, such as U+00A0, between two class characters leaves one class on the item, but the selector asks for two classes, so it matches no item. |
| Selection.SelectorOfPaddedClasses | sp.select-to-list.js:163 | Item classes with leading whitespace give a selector starting with `..`, trailing whitespace one ending in `.`, and empty item classes the bare `.`: none of these is a valid class selector. |
| Selection.DefaultsSelector | sp.select-to-list.js:139-151 | Under the default options the list's class tokens are just `js-created-list`, the item's just `js-created-list__item`, and the click selector is `.js-created-list__item`. |
| Selection.TurnNext | sp.select-to-list.js:135-153 | One turn of the `each` loop turns select `n` into list `n` with key `n`. The earlier selects and lists are left as they were. |
| Selection.SpSelectToList | sp.select-to-list.js:130-172 | Select `i` gets list `i` with key `i`, and no select's value changes. The lists are fresh and own distinct flag arrays. Within one call, each list's key is carried by its own select and by no other. The selector is built from the item classes. |
| Selection.SeparateCallsShareKeys | sp.select-to-list.js:135-153 | The first lists of two separate plugin calls share key 0. A click in the first list therefore also writes to the select of the second call. |

## Left out

- The DOM and jQuery are not modelled. The following become explicit values:
  - the selects a call matches and the selects of the page are sequences of `Select` objects;
  - a list item is reached through its list and its index, not through `$clickedLi.parent()` and `find('li')`.
- Inserting the list after its select (`insertAfter`) is left out, since it changes only the page layout.
- Render.RenderItems: it states the records that parsing the markup yields, but it is not derived from the markup.
  - No HTML parser is modelled, and the plugin escapes nothing.
  - A value, text or attribute containing `"` or markup would produce other elements than the records.
- Selection.WriteBack: the model always sets the value.
  - jQuery's `data('val')` type conversion is not modelled.
  - What `.val(value)` does when no option of the select has that value is not modelled either.
  - `change` events are counted but not dispatched. Handlers on the page are outside this model.
- The `onAfterInit` and `onAfterSelect` callbacks are left out, since they run code the plugin cannot see.
  - `onAfterSelect` runs after every handler call, including those that return at the guard.
- Selection.SelectorRequiresEveryClass: it covers only item classes whose `\s` characters are all ASCII whitespace.
  - Any other `\s` character (U+00A0, U+FEFF, U+2000 and the like) stays inside a class of the item but becomes a dot in the selector.
  - `NonAsciiBlankSplitsItemClass` shows that the selector then matches no item.
- Selection.MarkAsSelected: the selected class is a per-item flag, so the model treats it as a single class distinct from the item classes.
  - In the source, a selected class that is also one of the item-class tokens would be removed from every item.
  - The delegated selector would then stop matching those items.
- Option handling: `$.extend` merging and the plugin's shared `params` variable are not modelled. The model takes one `Config` for every call.
  - In the source, `params` is one variable for the whole plugin, reassigned at each `each` turn.
  - Listeners installed by earlier calls therefore read the options of the latest call.
- Listener registration is modelled only by its effect.
  - The source adds one document-level click listener per turned select and per call, so one click runs the handler once per listener.
  - `UpdateSelectTwice` shows that the repeated runs change nothing further.
- Duplicate element `id`s across separate calls are not modelled. The same index restarts at 0 on every call, as `SeparateCallsShareKeys` shows for the `data-rel` keys.
