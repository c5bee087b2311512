# Wicket request mapping, request utilities and check-box groups in Dafny

This project models three independent pieces of Apache Wicket and proves properties of them.

- **The bookmarkable request mapper** (`AbstractBookmarkableMapper`, module `BookmarkableMapper`).
  - `mapRequest` takes the `UrlInfo` a mount-specific `parseRequest` extracted and classifies it as a bookmarkable, hybrid or listener request.
  - `mapHandler` turns a bookmarkable-page, render-page or bookmarkable-listener handler back into a `UrlInfo` for `buildUrl`.
  - The template hooks (`parseRequest`, `buildUrl`, `pageMustHaveBeenCreatedBookmarkable`, `checkPageClass`) and the listener-interface registry are fields of a `Mapper` value.
  - The records (`UrlInfo`, `PageComponentInfo`, `PageInfo`, `ComponentInfo`) and the handlers are datatypes with `Option` for Java's nullable fields.
- **The request utilities** (`RequestUtils`, module `RequestUtils`).
  - `decodeParameters` and `decodeUrlParameters` decode a query string into a caller's map. These are methods over classes that stand for the caller's `ValueMap` and `Map`.
  - `removeDoubleDots` is a method with the source's backtracking index loop, proved equal to a left-to-right stack reduction of the path's segments.
  - The two-argument `toAbsolutePath` is a method with the source's climbing loop, proved equal to a recursive definition.
  - The exceptions these operations can raise become error results.
  - Percent-decoding is a parameter `decode` whose behaviour is left open.
- **Check-box group selection** (`CheckGroup`, module `CheckGroup`).
  - `convertValue` resolves submitted values against the group's checks, with `visitChildren` abstracted as a sequence of (value, model object) pairs in visit order.
  - `updateModel` rewrites the model's collection in place, with collections as objects so that aliasing is visible.
  - The module also covers `getStatelessHint` and the attribute removal of `onComponentTag`.

Supporting modules:
- `Wrappers` holds `Option` and `Result`.
- `JavaStrings` gives Java's `String.split` with limit 0.
  - A string without the separator comes back whole, so `"".split("/")` is `[""]`.
  - Otherwise the trailing empty pieces are dropped, so `"a/b/".split("/")` is `["a","b"]` and `"/".split("/")` is `[]`.
  - Around it: `lastIndexOf`, `startsWith`, and the separator join that `Strings.join` performs.
- `RequestUtilsExamples` works through concrete query strings.

Where the documentation and the code disagree, the model follows the code. The `UrlInfo` getter `getPageParameters` is documented as never returning null. The constructor, however, stores a null parameters object as null (wicket/src/main/java/org/apache/wicket/ng/request/mapper/AbstractBookmarkableMapper.java:80), and `NewUrlInfo` does the same.

Some behaviour is modelled as written even though it may surprise a reader:
- In `removeDoubleDots` a `..` segment is itself a non-empty segment, so it cancels a following `..`: `"../../x"` becomes `"x"` (`RequestUtils.RemoveDoubleDotsLeadingParents`).
- In `updateModel`, when the model's collection is the converted-input collection itself, clearing it also empties the input, and the collection ends up empty.

## Model

| member | source | states |
|---|---|---|
| BookmarkableMapper.NewUrlInfo | wicket/src/main/java/org/apache/wicket/ng/request/mapper/AbstractBookmarkableMapper.java:74-82 | a null page class is refused with the argument-check exception; otherwise the page-component info, class and parameters are stored unchanged, a null parameters object included |
| BookmarkableMapper.DefaultCheckPageClass | wicket/src/main/java/org/apache/wicket/ng/request/mapper/AbstractBookmarkableMapper.java:218-221 | the default class check accepts every page class |
| BookmarkableMapper.MapRequest | wicket/src/main/java/org/apache/wicket/ng/request/mapper/AbstractBookmarkableMapper.java:143-216 | null when parsing fails; without page-component info or page id, a render-page handler over a class-only provider; with a page id and no component info, a render-page handler over a provider with that id, class, parameters and a null render count; with component info, a listener handler whose provider carries id, class, parameters, the component info's render count and path and whose handler carries the resolved interface and behavior index, or null for an unknown interface name; and null exactly in those two cases |
| BookmarkableMapper.UrlInfoFor | wicket/src/main/java/org/apache/wicket/ng/request/mapper/AbstractBookmarkableMapper.java:223-294 | per handler variant: nothing when the class check rejects; a bookmarkable page gets page info without an id and no component info; a render page gets nothing if it must have been created bookmarkable and was not, no page-component info if stateless, else page info with its id; a listener gets page info with its id and component info with the page's render count, the interface name, the component path and the behavior index; any other handler gets nothing |
| BookmarkableMapper.MapHandler | wicket/src/main/java/org/apache/wicket/ng/request/mapper/AbstractBookmarkableMapper.java:223-294 | the URL is null exactly when no `UrlInfo` is produced, and is otherwise `buildUrl` of that `UrlInfo` |
| BookmarkableMapper.DefaultCheckAcceptsBookmarkable | wicket/src/main/java/org/apache/wicket/ng/request/mapper/AbstractBookmarkableMapper.java:218-240 | with the default class check, every bookmarkable-page handler is mapped to a URL |
| BookmarkableMapper.MapHandlerThenMapRequest | wicket/src/main/java/org/apache/wicket/ng/request/mapper/AbstractBookmarkableMapper.java:117-124 | when `parseRequest` recovers the `UrlInfo` `mapHandler` built, `mapRequest` returns a class-only render handler for a bookmarkable page or stateless page, a handler for the same page id (render count dropped) for a stateful page, and for a listener the same page id, render count, component path and behavior index with the interface the registry resolves, which is the original one when the registry is consistent, or null for an unregistered name; an `Other` handler never gets that far |
| RequestUtils.TupleEntryFails | jdk-1.4/wicket/src/main/java/org/apache/wicket/protocol/http/RequestUtils.java:53-61 | reading `bits[0]` throws exactly for a non-empty tuple made only of `=` characters |
| RequestUtils.TupleEntryKeyOnly | jdk-1.4/wicket/src/main/java/org/apache/wicket/protocol/http/RequestUtils.java:59-62 | a tuple without `=` yields its decoded self with the empty value |
| RequestUtils.TupleEntryKeyValue | jdk-1.4/wicket/src/main/java/org/apache/wicket/protocol/http/RequestUtils.java:53-58 | `k=v` with separator-free parts and a non-empty value yields (decode(k), decode(v)) |
| RequestUtils.CollectSpec | jdk-1.4/wicket/src/main/java/org/apache/wicket/protocol/http/RequestUtils.java:51-63 | processing tuples in order succeeds exactly when no tuple throws, keeping every value in order, and otherwise stops with the exception of the first tuple that throws |
| RequestUtils.CollectSuccess | jdk-1.4/wicket/src/main/java/org/apache/wicket/protocol/http/RequestUtils.java:51-63 | processing succeeds exactly when every tuple does, and then yields one value per tuple in order |
| RequestUtils.CollectFailure | jdk-1.4/wicket/src/main/java/org/apache/wicket/protocol/http/RequestUtils.java:51-63 | a failed processing reports the exception of the first tuple that throws, every earlier tuple having succeeded |
| RequestUtils.CollectStep | jdk-1.4/wicket/src/main/java/org/apache/wicket/protocol/http/RequestUtils.java:51-63 | processing one more tuple keeps an earlier exception, and otherwise appends the tuple's entry or takes its exception |
| RequestUtils.CollectPrefixFailure | jdk-1.4/wicket/src/main/java/org/apache/wicket/protocol/http/RequestUtils.java:51-63 | once a tuple has thrown, the later tuples do not change the outcome |
| RequestUtils.DecodeAllEntries | jdk-1.4/wicket/src/main/java/org/apache/wicket/protocol/http/RequestUtils.java:50-63 | one entry per `&`-tuple, in order, each the tuple's own entry; otherwise the exception of the first throwing tuple |
| RequestUtils.DecodeParameters | jdk-1.4/wicket/src/main/java/org/apache/wicket/protocol/http/RequestUtils.java:48-64 | on success the target has exactly the tuples' entries appended in order; on an exception, it reports that exception and the entries of the tuples before the throwing one have already been added |
| RequestUtils.GatherValues | jdk-1.4/wicket/src/main/java/org/apache/wicket/protocol/http/RequestUtils.java:84-90 | a key is in the gathered map exactly when some entry has it, and then maps to all of its values in order of appearance |
| RequestUtils.GatherSnoc | jdk-1.4/wicket/src/main/java/org/apache/wicket/protocol/http/RequestUtils.java:84-90 | one more (key, value) entry appends the value to that key's array, starting a new one for a new key, and leaves every other key as it was |
| RequestUtils.GatherTotal | jdk-1.4/wicket/src/main/java/org/apache/wicket/protocol/http/RequestUtils.java:68-91 | the gathered map holds as many values in total as there were tuples |
| RequestUtils.ParameterMap.PutGathered | jdk-1.4/wicket/src/main/java/org/apache/wicket/protocol/http/RequestUtils.java:93-101 | putting every entry of the temporary map, in any order, overwrites those keys and keeps all others |
| RequestUtils.DecodeUrlParameters | jdk-1.4/wicket/src/main/java/org/apache/wicket/protocol/http/RequestUtils.java:66-102 | on success the caller's map becomes its old contents overridden by the gathered map of all tuples (keys not in the query untouched, keys in it overwritten); on an exception it is unchanged |
| RequestUtils.NormalizedSegmentsIrreducible | jdk-1.4/wicket/src/main/java/org/apache/wicket/protocol/http/RequestUtils.java:112-129 | no kept segment that is non-empty is directly followed by `..` |
| RequestUtils.NormalizedPathWithoutDoubleDots | jdk-1.4/wicket/src/main/java/org/apache/wicket/protocol/http/RequestUtils.java:112-133 | a path with no `..` segment comes back unchanged except that a run of trailing slashes collapses to one |
| RequestUtils.ReduceAdvance | jdk-1.4/wicket/src/main/java/org/apache/wicket/protocol/http/RequestUtils.java:114-128 | stepping past a segment its predecessor does not cancel keeps the reduction's outcome |
| RequestUtils.ReduceCancel | jdk-1.4/wicket/src/main/java/org/apache/wicket/protocol/http/RequestUtils.java:119-127 | removing a cancelling pair and stepping back (clamped at the start) keeps the reduction's outcome |
| RequestUtils.RemoveDoubleDots | jdk-1.4/wicket/src/main/java/org/apache/wicket/protocol/http/RequestUtils.java:110-134 | the result is the stack reduction of the `/`-segments joined with `/`, plus a `/` when the input ended with one, and so ends with `/` whenever the input does |
| RequestUtils.RemoveDoubleDotsExample | jdk-1.4/wicket/src/main/java/org/apache/wicket/protocol/http/RequestUtils.java:110-134 | `a/b/../c` becomes `a/c` |
| RequestUtils.RemoveDoubleDotsTrailingExample | jdk-1.4/wicket/src/main/java/org/apache/wicket/protocol/http/RequestUtils.java:110-134 | `a/b/../c/` becomes `a/c/`, keeping the trailing slash |
| RequestUtils.RemoveDoubleDotsLeadingParents | jdk-1.4/wicket/src/main/java/org/apache/wicket/protocol/http/RequestUtils.java:119-126 | `../../x` becomes `x`, since a `..` segment cancels the `..` after it |
| RequestUtils.BaseOfShape | jdk-1.4/wicket/src/main/java/org/apache/wicket/protocol/http/RequestUtils.java:185-193 | the base is the request path itself when it ends with `/`, otherwise a directory prefix of it with no `/` after it (empty when there is none) |
| RequestUtils.BaseOfFile | jdk-1.4/wicket/src/main/java/org/apache/wicket/protocol/http/RequestUtils.java:191-192 | a request path naming a file in a directory has that directory as base |
| RequestUtils.SameDirectory | jdk-1.4/wicket/src/main/java/org/apache/wicket/protocol/http/RequestUtils.java:213-217 | a relative path not starting with `../` is appended to the base unchanged, even if it holds `../` later |
| RequestUtils.ParentDropsSegment | jdk-1.4/wicket/src/main/java/org/apache/wicket/protocol/http/RequestUtils.java:205-209 | climbing out of `prefix + segment + "/"` leaves `prefix` |
| RequestUtils.ParentShape | jdk-1.4/wicket/src/main/java/org/apache/wicket/protocol/http/RequestUtils.java:205-209 | one climb removes exactly one `/` and leaves a directory prefix |
| RequestUtils.ClimbOnce | jdk-1.4/wicket/src/main/java/org/apache/wicket/protocol/http/RequestUtils.java:195-212 | one leading `../` throws on an empty base and otherwise climbs one segment and goes on with the rest |
| RequestUtils.ClimbStepsFail | jdk-1.4/wicket/src/main/java/org/apache/wicket/protocol/http/RequestUtils.java:195-212 | `n` leading `../` throw exactly when the base has fewer than `n` segments |
| RequestUtils.ClimbStepsResult | jdk-1.4/wicket/src/main/java/org/apache/wicket/protocol/http/RequestUtils.java:195-217 | when `n` leading `../` succeed, the result is the ancestor `n` levels up followed by the rest of the relative path, and that ancestor is a directory prefix of the base with `n` fewer segments |
| RequestUtils.ParentsExample | jdk-1.4/wicket/src/main/java/org/apache/wicket/protocol/http/RequestUtils.java:205-209 | climbing from `http://x/a/b/` gives `http://x/a/`, and from there `http://x/` |
| RequestUtils.AbsolutePathExample | jdk-1.4/wicket/src/main/java/org/apache/wicket/protocol/http/RequestUtils.java:181-219 | ("http://x/a/b/c", "../../d") gives "http://x/d" |
| RequestUtils.ToAbsolutePath | jdk-1.4/wicket/src/main/java/org/apache/wicket/protocol/http/RequestUtils.java:181-219 | the loop computes the recursive climb from the base, including the `setLength(-1)` exception on an exhausted base |
| RequestUtilsExamples.SplitQueryExample | jdk-1.4/wicket/src/main/java/org/apache/wicket/protocol/http/RequestUtils.java:50 | `a=1&b&c=2=3` splits on `&` into its three tuples |
| RequestUtilsExamples.SplitTupleExample | jdk-1.4/wicket/src/main/java/org/apache/wicket/protocol/http/RequestUtils.java:53 | `c=2=3` splits on `=` into three parts |
| RequestUtilsExamples.SplitFailingQueryExample | jdk-1.4/wicket/src/main/java/org/apache/wicket/protocol/http/RequestUtils.java:50 | `a=1&=` splits on `&` into `a=1` and `=` |
| RequestUtilsExamples.TupleEntryPairExample | jdk-1.4/wicket/src/main/java/org/apache/wicket/protocol/http/RequestUtils.java:53-58 | `a=1` is the pair (a, 1) |
| RequestUtilsExamples.TupleEntryKeyExample | jdk-1.4/wicket/src/main/java/org/apache/wicket/protocol/http/RequestUtils.java:59-62 | `b` is a bare key with the empty value |
| RequestUtilsExamples.TupleEntryExtraPartsExample | jdk-1.4/wicket/src/main/java/org/apache/wicket/protocol/http/RequestUtils.java:53-62 | `c=2=3` has three parts, so only its key is kept, with the empty value |
| RequestUtilsExamples.TupleEntryFailureExample | jdk-1.4/wicket/src/main/java/org/apache/wicket/protocol/http/RequestUtils.java:53-61 | `=` splits into no parts and throws |
| RequestUtilsExamples.DecodeAllExample | jdk-1.4/wicket/src/main/java/org/apache/wicket/protocol/http/RequestUtils.java:48-64 | `a=1&b&c=2=3` decodes to (a, 1), (b, ""), (c, "") in that order |
| RequestUtilsExamples.DecodeAllFailureExample | jdk-1.4/wicket/src/main/java/org/apache/wicket/protocol/http/RequestUtils.java:53-61 | `a=1&=` throws on its second tuple |
| JavaStrings.SplitSeparatorFree | jdk-1.4/wicket/src/main/java/org/apache/wicket/protocol/http/RequestUtils.java:50 | no piece of a split holds the separator |
| JavaStrings.JoinSplit | jdk-1.4/wicket/src/main/java/org/apache/wicket/protocol/http/RequestUtils.java:112-130 | joining the pieces of a split gives the string back less its trailing separators |
| JavaStrings.SplitJoin | jdk-1.4/wicket/src/main/java/org/apache/wicket/protocol/http/RequestUtils.java:50 | splitting a join of at least two separator-free parts, the last non-empty, gives the parts back |
| JavaStrings.SplitEmpty | jdk-1.4/wicket/src/main/java/org/apache/wicket/protocol/http/RequestUtils.java:53 | a split has no pieces exactly when the string is non-empty and made of separators only |
| JavaStrings.SplitPair | jdk-1.4/wicket/src/main/java/org/apache/wicket/protocol/http/RequestUtils.java:53-54 | `k + sep + v` with separator-free parts and a non-empty `v` splits into exactly `[k, v]` |
| JavaStrings.SplitTrailingSeparator | jdk-1.4/wicket/src/main/java/org/apache/wicket/protocol/http/RequestUtils.java:112 | a trailing separator does not change how a non-empty string splits |
| JavaStrings.LastIndexOf | jdk-1.4/wicket/src/main/java/org/apache/wicket/protocol/http/RequestUtils.java:192 | the position of the last occurrence, or -1, with no occurrence after it |
| CheckGroup.FindCheck | wicket-core/src/main/java/org/apache/wicket/markup/html/form/CheckGroup.java:121-131 | the visit stops at the first check in visit order whose value equals the submitted string, and finds none exactly when no check has that value |
| CheckGroup.NonNullMembers | wicket-core/src/main/java/org/apache/wicket/markup/html/form/CheckGroup.java:117-120 | the values `convertValue` resolves are exactly the non-null entries of the submitted array, and all of them, position by position, when there is no null |
| CheckGroup.ConvertedSpec | wicket-core/src/main/java/org/apache/wicket/markup/html/form/CheckGroup.java:105-152 | conversion succeeds exactly when every non-null submitted value matches a check (so a null or empty array gives the empty list); then one model object per non-null value in submission order, duplicates included, each from the first matching check; otherwise the exception names the first unmatched value and all submitted values, with no partial result |
| CheckGroup.ResolveSuccess | wicket-core/src/main/java/org/apache/wicket/markup/html/form/CheckGroup.java:115-144 | resolving succeeds exactly when every value has a matching check, and then gives each value's first matching model object, in order |
| CheckGroup.ResolveFailure | wicket-core/src/main/java/org/apache/wicket/markup/html/form/CheckGroup.java:115-144 | a failed resolution names the first value without a matching check |
| CheckGroup.ConvertValue | wicket-core/src/main/java/org/apache/wicket/markup/html/form/CheckGroup.java:105-152 | the loop over the submitted array, skipping nulls and stopping at the first unmatched value, computes the conversion `ConvertedSpec` describes |
| CheckGroup.ModelCollection.Clear | wicket-core/src/main/java/org/apache/wicket/markup/html/form/CheckGroup.java:176 | a modifiable collection is emptied; an unmodifiable one throws `UnsupportedOperationException` and keeps its elements |
| CheckGroup.ModelCollection.AddAll | wicket-core/src/main/java/org/apache/wicket/markup/html/form/CheckGroup.java:177 | a modifiable collection gets the other collection's elements as they were on entry appended; an unmodifiable one throws and keeps its elements |
| CheckGroup.CollectionModel.SetObject | wicket-core/src/main/java/org/apache/wicket/markup/html/form/CheckGroup.java:181-190 | stores the reference when the property has a setter, and otherwise throws and changes nothing else; each call, throwing or not, is recorded with its argument |
| CheckGroup.CheckGroup.UpdateModel | wicket-core/src/main/java/org/apache/wicket/markup/html/form/CheckGroup.java:155-192 | without a model collection, the converted input becomes the model object and a setter failure propagates; with an unmodifiable one, `UnsupportedOperationException` propagates and nothing changes; with a modifiable one, that same instance stays the model object and ends up holding the converted input (empty if it is the converted input), and a setter failure is swallowed |
| CheckGroup.CheckGroup.GetStatelessHint | wicket-core/src/main/java/org/apache/wicket/markup/html/form/CheckGroup.java:241-249 | false whenever the group wants selection-change notifications, otherwise the superclass's hint |
| CheckGroup.CheckGroup.OnComponentTag | wicket-core/src/main/java/org/apache/wicket/markup/html/form/CheckGroup.java:194-202 | the tag loses its `disabled` and `name` attributes and keeps every other attribute unchanged |

## Left out

- The one-argument `toAbsolutePath` is left out: it reads the servlet request from the thread-bound request cycle, which is I/O context.
- The deprecated `decode` and `encode`, and `WicketURLDecoder` itself, are foreign code. Decoding is the uninterpreted parameter `decode`.
- `ValueMap` is not part of this model. `RequestUtils.ValueMap.Add` records every `add` call in order, and does not model how the real `ValueMap` folds a repeated key into an array.
- `HashMap` iteration order in `decodeUrlParameters` is not modelled. `RequestUtils.ParameterMap.PutGathered` puts the keys in an unspecified order, and the result is stated as a map.
- `RequestUtils.DecodeUrlParameters` models the caller's `Map` as a map from key to value sequence. Whether it already held other kinds of values is not modelled.
- `Strings.java` is not part of this model. `Strings.join` is modelled as plain interleaving of the parts with the separator.
- `String.split` treats its argument as a regular expression. Only the literal one-character separators `&`, `=` and `/` used here are modelled.
- Provider page sources are not modelled: `setPageSource(getContext())` and the mapper context are left out. Providers are records of their constructor arguments.
- The logger warning for an unknown listener interface is left out, and so are the `log.info` in `updateModel` and the abstract `getCompatibilityScore`.
- The mapper's listener-interface string conversion is a partial map from name to interface plus a total function back; the registry itself is not part of this model.
- The token codec of `PageInfo`/`ComponentInfo` and `Url` parsing are not part of this model; `parseRequest` and `buildUrl` are parameters.
- `PageInfo` is modelled by its page id only, the one field the mapper reads. `PageInfo(page)` is taken to carry the page's id.
- `BookmarkableMapper.NewUrlInfo` exists only as a contract: the mapper's own calls always pass a page class, so `BookmarkableMapper.UrlInfoFor` builds `UrlInfo` values directly.
- A `PageComponentInfo` always has a `PageInfo` in the model. A null one, which would make `mapRequest` throw, is not modelled.
- CheckGroup's framework parts are left out: the component tree traversal (abstracted as a sequence of checks in visit order), model/property binding beyond `setObject`, `modelChanging`/`modelChanged`, `super.onComponentTag`, `onSelectionChanged` callbacks and logging.
- `CheckGroup.CheckGroup.UpdateModel` models the model collection as a list: `addAll` appends in order and keeps duplicates. A `Set` model object, which would drop duplicates and order, is not modelled. Collections whose mutators throw only in some states (such as a fixed-size list, whose `clear()` succeeds when it is already empty) are not modelled either; a collection is modifiable or not.
- `CheckGroup.CheckGroup.UpdateModel` uses a plain `setObject` for `setDefaultModelObject`. The component's own bookkeeping in that method (such as versioning and change detection) is not modelled.
