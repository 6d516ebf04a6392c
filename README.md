# EJStemplate view-model pipeline in Dafny

EJStemplate serves pages assembled from EJS partials. For each matched route the server:

1. builds a base view model whose `displayRules` name every partial slot;
2. spreads the route's own display rules over it;
3. resolves component references found in the `_content` slots into markup;
4. collects the stylesheets that belong to each component into `headCssLinks`;
5. joins array-valued content slots, flattens `headCssLinks` and gives every link a cache-busting timestamp, before the layout template renders the result.

Before any of this, a pre-flight check compares array-valued content slots with their `_ejsData` partners.

This project models that pipeline and proves what each step promises. It covers the route handling of `src/server.js`, the current component resolver `src/engineRoom/resolveDynamicContent.js`, and the earlier resolver `engineRoom/resolveDynamicContent.js`.

Modules, one per file:

- `Strings` (`strings.dfy`): the JavaScript string operations the code relies on: `endsWith`, `split` and `join` with a one-character separator, the global backslash replacement, and the decimal text of integers.
- `Paths` (`paths.dfy`): Node's POSIX `path.normalize`, `join`, `resolve`, `relative`, `dirname` and `extname`. An absolute path is represented by its list of segments.
- `Values` (`values.dfy`): the JavaScript values held in display rules, `String(v)` and `Array.prototype.join`, and the exceptions a request can end with.
- `DisplayRules` (`rules.dfy`):
  - a display-rules object as an ordered map (`Rules`: keys in insertion order plus their values);
  - the two in-place writes the resolvers make: assigning a slot or one element of it, and pushing onto `headCssLinks`;
  - the `ViewModel` class whose `displayRules` field the pipeline reassigns.
- `Host` (`host.dfy`): what the resolvers see of the machine, all as parameters:
  - the project directory and the working directory;
  - the loadable component modules, keyed by resolved file (each with an optional `getHtml`);
  - the directory listings `fs.readdirSync` returns.
- `Resolver` (`resolver.dfy`): the current `processComponent` and `resolveDynamicContent`. Each has a functional specification (`ProcessSpec`, `ResolveSpec`) and methods that change the view model in place and are proved to agree with it.
- `EarlierResolver` (`earlier_resolver.dfy`): the same for the earlier revision. It differs in where modules and stylesheets are looked up. It passes no data key and does no section lookup.
- `Server` (`server.dfy`): `createBaseViewModel`, the spread merge, `consistencyCheck`, the route model of `/`, the part of `render` that shapes the display rules, `appendTimestampToCss`, and `handleRoute`.

Where the documented behaviour and the code differ, the model follows the code:

- A `_content` key that does not contain `c<digits>_content` makes the current resolver throw (`found` is null at src/engineRoom/resolveDynamicContent.js:60). It is not skipped.
- A missing stylesheet directory makes `readdirSync` throw (`NoSuchDirectory`). It is not tolerated.
- The pre-flight check looks only at the `_content` keys of the base shape. A route key such as `c1_content` or `c12_content` is never compared with its data key (`Server.RouteOnlyKeysIgnored`).

## Model

| member | source | states |
|---|---|---|
| Server.BaseRules | src/server.js:104-128 | the base display rules hold exactly the eighteen keys of the base shape, in declaration order |
| Server.BaseKeysDistinct | src/server.js:106-126 | no key of the base shape occurs twice |
| Server.BaseValues | src/server.js:104-128 | `c1`, `c2` and `c3` are `[false, false]`; the seven `_content` slots are null; the seven `_ejsData` slots are `{}`; `headCssLinks` is the empty array and the last key |
| Server.CreateBaseViewModel | src/server.js:104-128 | every call returns a new view model object holding the base display rules |
| Server.BaseContentKeys | src/server.js:111-117 | exactly the seven keys from `c11_content` to `c33_content` of the base shape end in "_content" |
| Server.BaseDataKeys | src/server.js:111-124 | the data key derived from each base `_content` key is the `_ejsData` key of the same section, seven positions later |
| Server.BaseLaidOutAsBase | src/server.js:106-126 | the base keys are distinct, none is `thisName`, the content keys are the seven in the middle, and each has its data key among the base keys |
| Server.MergeSpread | src/server.js:206 | `{...base, ...route}`: every route key takes the route's value; every base key the route lacks keeps the base value; no other key appears; the keys are the base keys in order, then the route's new keys in the route's order |
| Server.SpreadFromSlots | src/server.js:206 | copying the route's entries one by one gives each copied key the route's value and keeps every other value |
| Server.SpreadKeysFresh | src/server.js:206 | assigning distinct keys in turn keeps the existing order and appends only the keys not yet present |
| Server.DataKeyOfSection | src/server.js:227 | `key.split('_')[0] + '_ejsData'` gives `c<digits>_ejsData` for `c<digits>_content`, the same section the current resolver finds with its regular expression |
| Server.FirstMismatchIsFirst | src/server.js:223-233 | the scan finds nothing exactly when no key fails, and otherwise finds a failing key with none failing before it |
| Server.CheckFails | src/server.js:220-238 | the check fails exactly when some checked `_content` key holds an array without a same-length array at its data key; the error then names the first such key and its data key; otherwise the success text names `thisName` |
| Server.OtherKeysIgnored | src/server.js:221-224 | for any key layout shaped like the base, setting a key outside it (other than `thisName`) never changes the verdict or its message |
| Server.RouteOnlyKeysIgnored | src/server.js:221-224 | keys only the route has, such as `c12_content`, are never checked |
| Server.FindInconsistency | src/server.js:223-236 | the loop stops at the first failing key, or gets through all keys when none fails |
| Server.ConsistencyCheck | src/server.js:220-238 | `consistencyCheck(routeModel)` gives the error for the first failing base key, or the success text, and writes nothing |
| Server.HomeConsistentOver | src/server.js:23-43 | in a route model laid out like the one for `/`, no base key fails the check whatever strings and single-element arrays it holds |
| Server.HandlerHomeConsistent | src/server.js:23-43 | the route model of `/` passes the check (its one array-valued base `_content` slot, `c11_content`, has a data array of the same length) and the message names `handlerHome` |
| Server.JoinContentSlots | src/server.js:71-78 | the `forEach` pass joins every `_content` array in place and changes no other slot |
| Server.RenderContent | src/server.js:65-83 | rendering keeps the keys in order, joins each `_content` array with `''`, keeps every other slot except `headCssLinks`, and fails exactly when `headCssLinks` is not an array |
| Server.RenderJoinsStrings | src/server.js:74-76 | a `_content` array of strings becomes their concatenation, in order |
| Server.RenderLinks | src/server.js:79-83 | after rendering, `headCssLinks` holds the flattened links in left-to-right order, each with its position's timestamp |
| Server.Render | src/server.js:65-83 | the in-place steps of `render` leave the display rules its specification gives, or fail with its error |
| Server.FlattenAppend | src/server.js:79 | `flat(Infinity)` distributes over concatenation |
| Server.FlattenIsFlat | src/server.js:79 | the flattened array contains no array |
| Server.FlattenOfFlat | src/server.js:79-82 | flattening an array that contains no array changes nothing |
| Server.FlattenIdempotent | src/server.js:79-83 | flattening twice equals flattening once |
| Server.FlattenLinks | src/server.js:79 | a list of links with one nested list of links in it flattens to all links, in order |
| Server.AppendTimestamp | src/server.js:94-97 | the output has the input's length, and element `i` is the link followed by `?v=` and the text of `ts + i` |
| Server.TimestampSplit | src/server.js:96 | a timestamped link without `?` of its own splits at `?` into the link and `v=` plus the token |
| Server.TimestampTail | src/server.js:96 | no `?` follows the one the timestamp adds |
| Server.TimestampedEqual | src/server.js:96 | two timestamped links are equal only when their links and tokens are, even when a link contains `?` |
| Server.TimestampsDistinct | src/server.js:94-97 | any two positions get different tokens and different timestamped links, whatever the links contain |
| Server.HandleRoute | src/server.js:203-213 | `handleRoute` as written answers with the merge resolved and rendered; resolution writes through to the route model's arrays, which end up holding the resolved values |
| Server.SharedArraysAsWritten | src/server.js:206 | after one successful request that renders a component from an array slot, the route model has changed, and the next request for it has nothing left to resolve and collects no stylesheet link |
| Server.ResolvedIsMarkup | src/engineRoom/resolveDynamicContent.js:15-29 | when no module's markup ends in ".js", a resolved element is never a component reference, and a resolved reference differs from the original |
| Server.SecondMergeSlot | src/server.js:206 | after the first request, every `_content` slot of the next merge has a section and holds no component reference |
| Server.HandleRouteIsolated | src/server.js:203-210 | `handleRoute` on a copy of the route model gives the rendered display rules its specification gives and leaves the route model as it was |
| Server.Serve | src/server.js:155-166 | a matched request fails with the check's error, or answers with the rendered display rules of the corrected `handleRoute` |
| Server.ServeTwice | src/server.js:155-166 | with the corrections, two requests for the same route at the same time answer alike, since the corrected path writes nothing; this is the contrast with `Server.SharedArraysAsWritten` |
| Resolver.Rendered | src/engineRoom/resolveDynamicContent.js:15-30 | a module without `getHtml` yields exactly the fallback marker |
| Resolver.ReplaceStylesheetSuffix | src/engineRoom/resolveDynamicContent.js:48 | a name ending in ".scss" or ".sass" gets the same stem with ".css"; any other name is unchanged |
| Resolver.LinkForShape | src/engineRoom/resolveDynamicContent.js:40-52 | a listing entry gives at most one link; it gives one exactly when it is a file with extension ".css", ".scss" or ".sass"; the link has no backslash |
| Resolver.LinksAppend | src/engineRoom/resolveDynamicContent.js:40-52 | the links of a listing are those of its entries, in listing order |
| Resolver.LinksSplit | src/engineRoom/resolveDynamicContent.js:40-52 | the links of a listing are those of any prefix followed by those of the rest |
| Resolver.CollectCssLinks | src/engineRoom/resolveDynamicContent.js:40-52 | the listing loop pushes the listing's links onto `headCssLinks` in order, or fails at the first push when `headCssLinks` is not an array |
| Resolver.ProcessSpec | src/engineRoom/resolveDynamicContent.js:10-53 | `processComponent` fails when the module cannot be loaded, when the index write lands on a string, or when the stylesheet directory is missing; on success it writes the markup or fallback only into the whole slot or only at the index, leaves every other slot, and appends the directory's links to `headCssLinks` |
| Resolver.ProcessComponent | src/engineRoom/resolveDynamicContent.js:10-53 | the in-place `processComponent` agrees with its specification |
| Resolver.CssLinkIn | src/engineRoom/resolveDynamicContent.js:44-46 | a ".css" file in a plain directory is linked as that directory followed by its name |
| Resolver.SassLinkIn | src/engineRoom/resolveDynamicContent.js:47-50 | a ".scss" or ".sass" file is linked as `css/` plus the directory plus the name with ".css" |
| Resolver.ModuleLocation | src/engineRoom/resolveDynamicContent.js:12 | a reference `dir/.../file` loads the module `src/components/dir/.../file` of the project |
| Resolver.StylesheetLocation | src/engineRoom/resolveDynamicContent.js:33-36 | the stylesheets of a component in `src/components/dir/...` are listed from `css/components/dir/...` |
| Resolver.ComponentCssLinks | src/engineRoom/resolveDynamicContent.js:33-50 | a component's ".css" files are linked as `css/components/dir/.../name`; its ".scss" and ".sass" files as `css/css/components/dir/.../stem.css`, with the doubled `css` |
| Resolver.DigitRun | src/engineRoom/resolveDynamicContent.js:58 | the digits matched by `\d+` run up to the first non-digit |
| Resolver.SearchFromLeftmost | src/engineRoom/resolveDynamicContent.js:58-59 | the search finds the leftmost match of `/(c\d+)(_content)/`, or reports that there is none |
| Resolver.FindSectionLeftmost | src/engineRoom/resolveDynamicContent.js:58-60 | the section is the group of the leftmost match; there is none exactly when the expression matches nowhere in the key |
| Resolver.SectionOfContentKey | src/engineRoom/resolveDynamicContent.js:58-60 | the key `c<digits>_content` belongs to the section `c<digits>` |
| Resolver.ArraySlotFrame | src/engineRoom/resolveDynamicContent.js:62-67 | the inner loop writes only its own slot and the end of `headCssLinks` |
| Resolver.ArraySlotElements | src/engineRoom/resolveDynamicContent.js:62-67 | the inner loop keeps the array's length; each ".js" string becomes, at its own position, what its module's `getHtml` returns for the slot's data key (the fallback marker without `getHtml`); every other element is untouched |
| Resolver.ResolveArraySlot | src/engineRoom/resolveDynamicContent.js:63-67 | the in-place inner loop agrees with its specification |
| Resolver.ResolveSlotDone | src/engineRoom/resolveDynamicContent.js:62-70 | resolving one `_content` slot writes only that slot and the end of `headCssLinks`, and leaves each component reference in it replaced by its module's output for the slot's data key |
| Resolver.ResolveSlotInPlace | src/engineRoom/resolveDynamicContent.js:62-70 | the in-place handling of one slot agrees with its specification |
| Resolver.StillReady | src/engineRoom/resolveDynamicContent.js:56 | entries not yet visited still hold the values `Object.entries` captured |
| Resolver.WalkSkip | src/engineRoom/resolveDynamicContent.js:57 | a key that does not end in "_content" is passed over |
| Resolver.WalkVisit | src/engineRoom/resolveDynamicContent.js:57-70 | a `_content` key without a section makes the walk throw; otherwise its slot is resolved with the data key of its section |
| Resolver.WalkFrame | src/engineRoom/resolveDynamicContent.js:56-72 | the walk writes only the `_content` slots it visits and the end of `headCssLinks` |
| Resolver.WalkResolves | src/engineRoom/resolveDynamicContent.js:56-72 | every `_content` entry from the current one on has a section and ends up resolved with that section's `_ejsData` key as data key |
| Resolver.ResolveSpecFrame | src/engineRoom/resolveDynamicContent.js:55-73 | the resolver keeps the keys and their order, leaves every slot that is neither `_content` nor `headCssLinks`, and only appends to `headCssLinks` |
| Resolver.ResolveSpecResolves | src/engineRoom/resolveDynamicContent.js:55-73 | every `_content` slot has a section, and each component reference in it becomes its module's `getHtml` output for `<section>_ejsData`: arrays element by element, a scalar reference only with the intended call (as written the resolver succeeds only when no scalar reference is present) |
| Resolver.ResolveDynamicContent | src/engineRoom/resolveDynamicContent.js:55-73 | the in-place `resolveDynamicContent` agrees with its specification |
| Resolver.NothingToResolve | src/engineRoom/resolveDynamicContent.js:55-73 | display rules whose `_content` slots hold no component reference come out unchanged |
| Resolver.ScalarReferenceAsWritten | src/engineRoom/resolveDynamicContent.js:68-69 | as written, a scalar component reference whose module loads makes the request fail on the write to the string |
| Resolver.ScalarReferenceIntended | src/engineRoom/resolveDynamicContent.js:15-21 | with the intended call, a scalar component reference is replaced by its module's markup, computed with the slot's data key |
| Resolver.PlainText | src/engineRoom/resolveDynamicContent.js:45 | a path without backslashes is left alone by the replacement |
| Resolver.JoinPlain3 | src/engineRoom/resolveDynamicContent.js:49 | `path.join` of three plain relative paths is their '/'-separated concatenation |
| EarlierResolver.LinkForShape | engineRoom/resolveDynamicContent.js:35-39 | a listing entry gives at most one link; it gives one exactly when it is a file with extension ".css"; the link has no backslash |
| EarlierResolver.LinksAppend | engineRoom/resolveDynamicContent.js:35-39 | the links of a listing are those of its entries, in listing order |
| EarlierResolver.LinksSplit | engineRoom/resolveDynamicContent.js:35-39 | the links of a listing are those of any prefix followed by those of the rest |
| EarlierResolver.CssLinkIn | engineRoom/resolveDynamicContent.js:36-37 | a ".css" file in a plain directory is linked as `css/` plus the directory plus its name |
| EarlierResolver.SassIgnored | engineRoom/resolveDynamicContent.js:36 | ".scss" and ".sass" files give no link, where the current resolver gives one |
| EarlierResolver.ModuleLocation | engineRoom/resolveDynamicContent.js:9 | a reference `dir/.../file` loads the module below the working directory |
| EarlierResolver.StylesheetLocation | engineRoom/resolveDynamicContent.js:30-33 | the stylesheets of a module `dir/.../file` below the project directory are listed from `dir/...` |
| EarlierResolver.ProcessSpec | engineRoom/resolveDynamicContent.js:8-41 | `processComponent` fails when the module cannot be loaded or the directory is missing; on success it writes the markup (computed from the view model alone) or the fallback into the whole slot or only at the index, leaves every other slot, and appends the directory's ".css" links |
| EarlierResolver.CollectCssLinks | engineRoom/resolveDynamicContent.js:35-40 | the listing loop pushes the listing's links onto `headCssLinks` in order, or fails at the first push |
| EarlierResolver.ProcessComponent | engineRoom/resolveDynamicContent.js:8-41 | the in-place `processComponent` agrees with its specification |
| EarlierResolver.ArraySlotFrame | engineRoom/resolveDynamicContent.js:46-51 | the inner loop writes only its own slot and the end of `headCssLinks` |
| EarlierResolver.ArraySlotElements | engineRoom/resolveDynamicContent.js:46-51 | the inner loop keeps the array's length; each ".js" string becomes, at its own position, what its module's `getHtml` returns with no data key (the fallback marker without `getHtml`); every other element is untouched |
| EarlierResolver.ResolveArraySlot | engineRoom/resolveDynamicContent.js:47-51 | the in-place inner loop agrees with its specification |
| EarlierResolver.ResolveSlotDone | engineRoom/resolveDynamicContent.js:46-54 | resolving one slot writes only that slot and the end of `headCssLinks`; each component reference becomes its module's output with no data key, a scalar reference as a whole |
| EarlierResolver.WalkSkip | engineRoom/resolveDynamicContent.js:45 | a key that does not end in "_content" is passed over |
| EarlierResolver.WalkVisit | engineRoom/resolveDynamicContent.js:45-55 | a `_content` entry's slot is resolved and the walk goes on, or the walk fails with the slot's error |
| EarlierResolver.WalkFrame | engineRoom/resolveDynamicContent.js:44-56 | the walk writes only the `_content` slots it visits and the end of `headCssLinks` |
| EarlierResolver.WalkResolves | engineRoom/resolveDynamicContent.js:44-56 | every `_content` entry from the current one on ends up resolved, each reference replaced by its module's output with no data key |
| EarlierResolver.ResolveSpecFrame | engineRoom/resolveDynamicContent.js:43-57 | the resolver keeps the keys and their order, leaves every slot that is neither `_content` nor `headCssLinks`, and only appends to `headCssLinks` |
| EarlierResolver.ResolveSpecResolves | engineRoom/resolveDynamicContent.js:43-57 | every `_content` slot ends up resolved: each component reference becomes its module's `getHtml` output with no data key, in arrays element by element, a scalar reference as a whole |
| EarlierResolver.ResolveDynamicContent | engineRoom/resolveDynamicContent.js:43-57 | the in-place `resolveDynamicContent` agrees with its specification |
| EarlierResolver.NothingToResolve | engineRoom/resolveDynamicContent.js:43-57 | display rules whose `_content` slots hold no component reference come out unchanged |
| DisplayRules.HeadCssLinksIsNotContent | src/engineRoom/resolveDynamicContent.js:57 | `headCssLinks` is never visited as a `_content` key |
| DisplayRules.Rules.Set | src/server.js:75 | assigning a property keeps an existing key in its place, puts a new key last, and changes only that key's value |
| DisplayRules.Rules.Entries | src/engineRoom/resolveDynamicContent.js:56 | `Object.entries` lists each key with its value, in key order |
| DisplayRules.WriteSlot | src/engineRoom/resolveDynamicContent.js:17-21 | writing a slot replaces it; writing at an index replaces only that element and keeps the length; writing a named property of a string fails with a TypeError |
| DisplayRules.AppendLinks | src/engineRoom/resolveDynamicContent.js:46 | pushing links appends them, in order, to the `headCssLinks` array and changes nothing else; the first push fails exactly when `headCssLinks` is not an array |
| DisplayRules.AppendLinksConcat | src/engineRoom/resolveDynamicContent.js:40-52 | pushing one list and then another is pushing their concatenation |
| DisplayRules.AppendLinksFailed | src/engineRoom/resolveDynamicContent.js:46 | once a push has failed, further pushes fail the same way |
| DisplayRules.KeepsCssPrefixTransitive | src/engineRoom/resolveDynamicContent.js:46-50 | growing `headCssLinks` at its end, step after step, keeps every earlier link in place |
| DisplayRules.PushCssLink | src/engineRoom/resolveDynamicContent.js:46 | the in-place push agrees with `AppendLinks` |
| DisplayRules.ViewModel.constructor | src/server.js:105 | a view model object holding the given display rules |
| Values.JoinArrayOfStrings | src/server.js:75 | `join` of an array of strings is their separated concatenation; with `''` it is their concatenation in order |
| Strings.SplitParts | src/server.js:227 | no part of a split contains the separator |
| Strings.JoinSplit | src/server.js:227 | joining the parts of a split gives the text back |
| Strings.SplitJoin | src/server.js:227 | splitting undoes joining when no part contains the separator |
| Strings.SplitAtSeparator | src/server.js:227 | splitting at a first separator gives the text before it, then the split of the rest |
| Strings.ReplaceBackslashesAt | src/engineRoom/resolveDynamicContent.js:45 | the replacement keeps the length and turns every backslash, and nothing else, into '/' |
| Strings.IntToStringInjective | src/server.js:96 | different integers have different decimal texts |
| Paths.NormalizeSegmentsNormal | src/engineRoom/resolveDynamicContent.js:36 | normalising yields no empty or "." segment, and ".." only at the start |
| Paths.NormalizeClean | src/engineRoom/resolveDynamicContent.js:36 | clean segments pass through normalisation unchanged |
| Paths.JoinNonEmpty | src/engineRoom/resolveDynamicContent.js:36 | `path.join` of non-empty arguments normalises their '/'-separated concatenation |
| Paths.JoinUnderAbsolute | src/engineRoom/resolveDynamicContent.js:12 | `path.join` of a clean absolute directory and a clean relative path is the absolute path below that directory |
| Paths.AbsoluteRoundTrip | src/engineRoom/resolveDynamicContent.js:34 | turning a clean absolute path into text and resolving it again gives its segments back |
| Paths.CommonPrefix | src/engineRoom/resolveDynamicContent.js:34 | the common prefix `path.relative` climbs to is as long as it can be: the two paths agree on it and differ right after it |
| Paths.RelativeResolves | src/engineRoom/resolveDynamicContent.js:34 | resolving `path.relative(from, to)` against `from` leads back to `to` |
| Paths.RelativeBelow | src/engineRoom/resolveDynamicContent.js:34 | a path below `from` is written relative to it without climbing |
| Paths.ExtnameShape | src/engineRoom/resolveDynamicContent.js:43 | an extension is empty, or a dot and a dot-free tail ending the name, after at least one other character |

## Left out

- The HTTP server, static-file serving, the MIME table, `URLPattern` routing and the 404 and 500 responses (src/server.js:13-21, 141-177, 240-243) are network I/O. Their one modelled trace is that an error ends the request (`Serve` returns it).
- `console.log` and `console.warn` (src/server.js:162; src/engineRoom/resolveDynamicContent.js:23) are output only.
- `ejs.renderFile` (src/server.js:85) and the components' `getHtml` bodies sit in an unseen templating library. `getHtml` is an opaque function of the display rules and the data key in the module registry.
- Dynamic `import()`, `pathToFileURL` and `fileURLToPath` are modelled as lookup in a map from resolved module files to modules. A missing module is the rejected import.
- `fs.readdirSync` is a map from the directory argument to its listing. `Date.now()` is the `ts` parameter.
- The `criticalPaths.js` constants are derived from the project directory (`Host.Environment.root`). `makeComponentCssToPublic.js` (both revisions) is build-time file copying and Sass compilation; it is not part of this model.
- `async`/`await` is modelled as sequential code, which is how the awaited calls run.
- A modelled `getHtml` never fails (`Host.Component` holds a total function). A module whose `getHtml` throws or rejects ends the request with that error in the code; the model does not capture this. The repository's own test component is such a module when it gets no data key: it reads `displayRules[undefined]` at src/components/testComponent/test.js:17.
- JavaScript puts integer-like property keys before the others. The model keeps plain insertion order, which is the same for every key these files use.
- Paths.Extname: only for names taken from a directory listing (one segment without '/'), which is how the resolvers call it.
- Server.AppendTimestamp: `ts + i` is an unbounded integer. JavaScript numbers are doubles, which give the same decimal text for every integer below 2^53; `Date.now()` plus an index stays below that.
- Server.HandleRoute: when the resolver fails partway, the writes it made into arrays shared with the route model are not carried into the route model (it is kept as it was). The request then ends with a 500 response.
- Server.HandlerHome: the route model of `/` is given by its values; that it is well formed (distinct keys) is not stated, as nothing about it needs that.

## Findings

| source | as written | input that shows it | evidently intended | confidence | as-written member | corrected member |
|---|---|---|---|---|---|---|
| src/engineRoom/resolveDynamicContent.js:69 | the scalar branch passes the data key in the `index` position, so `partialData` is undefined and `processComponent` takes the `index !== null` path (lines 17-18, 25-26), assigning a property of a string, which throws in module (strict) code | a route model with `c21_content: 'widget/widget.js'`, a module whose `getHtml` does not itself fail on an undefined data key (with the repository's test component the request fails one step earlier, inside `getHtml`, as noted under Left out) | `index` null and the data key as `partialData`, as the array branch (line 65) and the earlier resolver (engineRoom/resolveDynamicContent.js:53) do: the whole slot becomes the markup | not executed | Resolver.ScalarReferenceAsWritten | Resolver.ScalarReferenceIntended |
| src/server.js:206 | the spread copies array references, so the resolver's writes at src/engineRoom/resolveDynamicContent.js:18 and 26 land in the route model itself; the comment at src/server.js:101 says the base view model keeps the server stateless | the route model of `/` (`c11_content: ['testComponent/test.js']`): after the first request `c11_content` holds markup, and later requests render no component and link no stylesheet | every request starts from the route model as declared, so two requests for the same route answer alike (Server.ServeTwice) | not executed | Server.SharedArraysAsWritten | Server.HandleRouteIsolated |
