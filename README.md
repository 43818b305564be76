# jsdoc name resolution, modelled in Dafny

This project models `jsdoc/name` (`modules/jsdoc/name.js`). That module turns a doclet's raw tags into its documented name, its container (`memberof`) and its full namepath (`path`).

A namepath is a sequence of segments joined by three separators:
- `.` marks a static member;
- `#` marks an instance member;
- `~` marks an inner member.

A double-quoted segment is an atom whose contents are never split.

The module does five things:
- **`shorten`** splits a namepath at its last separator outside quotes.
- **`resolve`** normalises a doclet's name tag, splits it into a container and a short name, and writes the `memberof`, `name` and `path` tags. It also adds the `inner` access level. The current module (`setCurrentModule`) and a tag dictionary influence the result.
- **`resolveThis`** rewrites a `this.`-prefixed name, or a member of an object literal, using the doclet registered for the enclosing function or object literal.
- **`resolveInner`** qualifies a closure-local name by its enclosing function's path.
- **`refs` / `docFromNode`** form a registry of `(node, doclet)` pairs. It is scanned from its end, so the newest entry wins.

The files:
- `strings.dfy` (module `Strings`): the character classes the source's regular expressions use. These are ECMAScript white space, line terminators, the prefix test `indexOf(p) === 0`, and identifiers.
- `namepath.dfy` (module `Namepath`):
  - `Shorten`, the specification of `shorten`. The path is cut into tokens (quoted atoms `".+?"` and single characters) and split at its last separator token.
  - `ShortenMasking`, the algorithm the source runs: mask, scan, restore. It is proved equal to `Shorten`.
  - The round-trip and atomicity properties.
- `doclet.dfy` (module `Doclets`): the part of a doclet that the resolver reads and writes. It is a class with a tag map, an access list and a `path` property; `isInner()` reads the access list.
- `name.dfy` (module `Name`):
  - The specification functions of `resolve`: `Normalize`, `SplitName`, `Compose`, `Resolution`, `Written`.
  - The specification functions of `resolveThis` and `resolveInner`: `ThisName`, `InnerName`.
  - The registry lookup `Find`.
  - The class `Resolver`, which holds the module state (current module, `refs`). It runs each operation step by step, and each method is proved to agree with the specification functions.
- `name_lemmas.dfy` (module `NameProperties`): what the source promises, proved about those functions.

Behaviour kept exactly as written:
- `resolve` keeps two different containers:
  - The local container keeps a trailing `~`, so `a~b` gets path `a~b`.
  - The `memberof` tag has the `~` cut off and reads `a`.
- `exports.create` in module `widgets` resolves to name `create`, `memberof` tag `widgets` and path `widgets.create`. The rewritten name `widgets.create` is itself split by `shorten`.
- An explicit `memberof` tag `Foo` with the name `Foo#bar` gives name `bar` and path `Foo.bar`. Line 80 joins with `.` because `Foo` does not end in `#`.
- `resolveThis` uses two joiners:
  - Under an object literal it checks only for a trailing `#`, and inserts `.` otherwise.
  - In the `this.` branch it checks for all three separators, and inserts `#` otherwise.
- In the `this.` branch of a non-constructor function, two paths leave the container empty, so `this.x` becomes `x`:
  - A path ending in a separator, such as `Klass#`: the part after the last separator is empty, and `slice(0, -0)` is `slice(0, 0)`, the empty string.
  - A path with no separator, such as `Klass`: the last part is the whole path, and `slice(0, -5)` cuts all of it off.

## Model

| member | source | states |
|---|---|---|
| Namepath.ShortenMasking | modules/jsdoc/name.js:91-117 | masking the quoted atoms, splitting the masked path at its last separator and restoring the atoms in order gives exactly `Shorten(path)` |
| Namepath.ShortenRoundTrip | modules/jsdoc/name.js:103-116 | no separator outside quotes gives `("", path)`; otherwise the split is at a separator `k`, the prefix is `path[..k]` plus the `#`/`~` (a `.` is dropped), the short name is `path[k+1..]`, so prefix + short name (or prefix + `.` + short name) is the path again |
| Namepath.ShortNameIsAtomic | modules/jsdoc/name.js:103-106 | the short name has no separator outside quotes, and shortening it again leaves it whole |
| Namepath.ShortenJoin | modules/jsdoc/name.js:103-108 | a quote-free container, a separator and an atomic name split back into the container (with `#`/`~` kept) and the name |
| Namepath.PlainNameIsAtomic | modules/jsdoc/name.js:103-106 | a name without quotes or separators gives the empty prefix and itself |
| Namepath.ShortenPlain | modules/jsdoc/name.js:103-108 | in a quote-free path the split is at the last separator character |
| Namepath.ShortenQuotedContainer | modules/jsdoc/name.js:95-101 | a separator inside a quoted atom is never split at: `"a.b".c` style paths give the atom as container |
| Namepath.ShortenDotExample | modules/jsdoc/name.js:103-108 | `a.b.c` gives `("a.b", "c")` |
| Namepath.ShortenKeptExample | modules/jsdoc/name.js:108 | `a#b` gives `("a#", "b")` and `a~b` gives `("a~", "b")` |
| Namepath.ShortenQuotedExample | modules/jsdoc/name.js:95-108 | `"a.b".c` gives `("\"a.b\"", "c")` |
| Name.FirstWord | modules/jsdoc/name.js:36 | the result is a prefix of the name without white space that stops at the first white-space character or the end |
| Name.SchemeLength | modules/jsdoc/name.js:69 | the length of the longest prefix of scheme characters (letters, `_`, `$`, `-`) |
| Name.LastPart | modules/jsdoc/name.js:170-171 | the last part is a suffix without separators, preceded by a separator unless it is the whole path |
| Name.Resolver.constructor | modules/jsdoc/name.js:13-15 | the module starts with no current module and an empty registry |
| Name.Resolver.SetCurrentModule | modules/jsdoc/name.js:17-19 | the current module becomes the given name |
| Name.Resolver.Register | modules/jsdoc/name.js:224-225 | one `(node, doclet)` entry is appended to `refs`, nothing else changes |
| Name.Resolver.DocFromNode | modules/jsdoc/name.js:214-223 | the backward scan returns the doclet of the newest entry for the node, none when there is none, and changes nothing |
| Name.Resolver.Resolve | modules/jsdoc/name.js:26-89 | the returned path, the new tags (`memberof` when split off, `name` when non-empty, `path` when non-empty) and the `inner` access are those of `Resolution` of the old tags; a doclet resolved as inner then reports `isInner()` |
| Name.Resolver.SplitTags | modules/jsdoc/name.js:46-64 | the container and short name are those of `SplitName`; the `memberof` tag is written without a trailing `~` only when a container is split off, and `inner` is added exactly when it ended in `~` |
| Name.Resolver.ResolveThis | modules/jsdoc/name.js:122-184 | the result is `ThisName` of the name, the doclet's `memberof` tag and the registry's doclets for the parent and the enclosing function |
| Name.Resolver.ResolveInner | modules/jsdoc/name.js:190-205 | the result is `InnerName` of the name and the registry's doclet for the enclosing function |
| Doclets.Doclet.SetTag | modules/jsdoc/name.js:61 | `setTag` sets that one tag and leaves every other tag as it was |
| Doclets.Doclet.AddAccess | modules/jsdoc/name.js:62 | `addTag('access', …)` appends one access level |
| NameProperties.FirstWordOfWord | modules/jsdoc/name.js:36 | a name without white space is kept whole |
| NameProperties.NormalizeWord | modules/jsdoc/name.js:36-42 | a word that is not an `exports.` name only has its `.prototype` replaced |
| NameProperties.NormalizeExports | modules/jsdoc/name.js:38-42 | with module `m`, `exports.b` becomes `m.b` |
| NameProperties.ReplacePrototypeNoDot | modules/jsdoc/name.js:42 | a name without dots is unchanged |
| NameProperties.ReplacePrototypeMember | modules/jsdoc/name.js:42 | `a.prototype.b` becomes `a#b` |
| NameProperties.ReplacePrototypeDot | modules/jsdoc/name.js:42 | `a.b` is unchanged when `b` does not start with `prototype` |
| NameProperties.NoPrototypeLeft | modules/jsdoc/name.js:42 | no `.prototype` is left anywhere in the result |
| NameProperties.ReplacePrototypeFixed | modules/jsdoc/name.js:42 | a name without `.prototype` is unchanged |
| NameProperties.ReplacePrototypeIdempotent | modules/jsdoc/name.js:42 | replacing twice is the same as replacing once |
| NameProperties.ResolvePrototypeMember | modules/jsdoc/name.js:36-85 | `Foo.prototype.bar` with no `memberof` tag: name `bar`, `memberof` tag `Foo#`, not inner, path `Foo#bar` |
| NameProperties.ResolveInnerMember | modules/jsdoc/name.js:53-80 | `a~b` with no `memberof` tag: `memberof` tag `a`, inner, name `b`, path `a~b` |
| NameProperties.InnerSplitTilde | modules/jsdoc/name.js:58-59 | a container `a~` (with `a` non-empty) gives the tag `a` and marks the doclet inner |
| NameProperties.ResolveExports | modules/jsdoc/name.js:38-80 | `exports.b` in module `m`: `memberof` tag `m`, name `b`, path `m.b` |
| NameProperties.ResolveFileKeepsWholeName | modules/jsdoc/name.js:53-88 | for kind `file` nothing is split off: no `memberof` tag, name and path are the whole normalised name |
| NameProperties.ExplicitMemberofKept | modules/jsdoc/name.js:46-52 | an explicit `memberof` tag is never rewritten and never makes the doclet inner |
| NameProperties.ResolveUnderMemberof | modules/jsdoc/name.js:79-80 | `@name bar` under `@memberof Foo`: path `Foo.bar`, with no dot after a container ending in `#` or `~` |
| NameProperties.ResolveQualifiedUnderMemberof | modules/jsdoc/name.js:46-81 | `@name Foo.bar` under `@memberof Foo`: name `bar`, path `Foo.bar` |
| NameProperties.StripSchemeOf | modules/jsdoc/name.js:69-71 | `scheme:b` loses its scheme |
| NameProperties.ResolveDocspace | modules/jsdoc/name.js:68-82 | for a kind with a doc-namespace the name loses its scheme and the path is `isa:name`, behind the container and its joiner when there is one |
| NameProperties.WrittenPath | modules/jsdoc/name.js:84-88 | the path tag is written exactly when the path is non-empty, and then equals the returned path |
| NameProperties.ThisNameUnchanged | modules/jsdoc/name.js:128-145 | a name neither under an object literal nor starting with `this.` is returned unchanged |
| NameProperties.ThisExplicitMemberof | modules/jsdoc/name.js:179-181 | with an explicit container other than `this`, `this.x` becomes `x` |
| NameProperties.LastPartAfter | modules/jsdoc/name.js:170-171 | the last part of `c` + separator + `s`, for `s` without separators, is `s` |
| NameProperties.LastPartWhole | modules/jsdoc/name.js:170-171 | a path without separators is all last part |
| NameProperties.ThisInMethod | modules/jsdoc/name.js:145-177 | in a non-constructor function documented as `Klass#method`, `this.x` is `Klass#x` |
| NameProperties.ThisEmptyContainer | modules/jsdoc/name.js:167-176 | when the function's path ends in a separator or has none, `this.x` is `x` |
| NameProperties.ThisInConstructor | modules/jsdoc/name.js:167-176 | in a constructor documented as `Klass`, `this.x` is `Klass#x` (no `#` after a trailing separator) |
| NameProperties.ThisWithoutOwner | modules/jsdoc/name.js:147-166 | in an inner or undocumented function, one whose doclet has no path, or outside any function, `this.x` is `x` |
| NameProperties.ObjectLiteralMember | modules/jsdoc/name.js:128-141 | a member of an object literal documented with path `P` is `P.name`, or `Pname` when `P` ends in `#` |
| NameProperties.ObjectLiteralWithoutPathTag | modules/jsdoc/name.js:132-141 | without a path tag the literal's `path` property is used, then `[[anonymousObject]]` |
| NameProperties.ObjectLiteralUndocumented | modules/jsdoc/name.js:128-131 | an undocumented object literal leaves the name alone |
| NameProperties.InnerNameCases | modules/jsdoc/name.js:190-205 | `P~name` inside a function documented with path `P`; `[[anonymous]]~name` inside an undocumented function whose name is empty; the name unchanged otherwise |
| NameProperties.FindLatest | modules/jsdoc/name.js:214-223 | the lookup is empty exactly when no entry has the node, and otherwise answers an entry for it with no later entry for the same node |
| NameProperties.FindRegistered | modules/jsdoc/name.js:214-225 | the entry appended last for a node is the one found |
| NameProperties.FindOther | modules/jsdoc/name.js:214-225 | appending an entry leaves the lookup of every other node unchanged |

## Left out

- The Rhino `Token` import and `getTypeName` (lines 13, 227-229) are Java interop. The object-literal test on line 128 is a boolean field of `Node`.
- Syntax-tree nodes are plain data: an identity number (for `===`), a parent, an object-literal flag, the enclosing function and an optional name. There is no parser.
- The tag dictionary (`jsdoc/tagdictionary`) is not part of this model. Its `setsDocletDocspace` is the set of kinds given to the `Resolver`. A missing `isa` never sets a doc-namespace.
- The doclet implementation (`jsdoc/doclet`) is not part of this model. `tagValue`, `setTag`, `addTag('access', …)`, `isInner()` and the `path` property are a minimal class. Anything more `setTag` does to other properties is not modelled.
- Doclets.Doclet.IsInner: `isInner()` is taken to report whether access level `inner` has been added. `resolve` adds that level for an `a~b` name, so the doclet then reports inner to `resolveThis`. Any other way `jsdoc/doclet` might mark a doclet inner is not modelled.
- `$` patterns in `String.replace` replacement strings (lines 39, 112-113) are not modelled: the module name and the restored atoms are inserted literally.
- Namepath.ShortenMasking: masked pieces are a separate type, so a path that already contains a literal placeholder text `@{i}@` (lines 98, 112) cannot be confused with a mask. The source can confuse the two.
- Namepath.Shorten: with no separator, line 104 reads a stale `RegExp.$1` left by an earlier match. The model gives the empty prefix, which is what the code intends.
- Name.InnerSplit: the `.` in `/^(.+?)(~)?$/` (line 58) does not match line terminators, so the source's test fails on such a container and leaves `RegExp.$1`/`$2` stale. The model treats every character alike.
- `resolveInner` takes a doclet argument that it never reads, and leaks `memberof` into a global variable (lines 195, 198). The model drops the argument and the global, since neither affects the result.
- Pushing onto `exports.refs` is done by callers outside this module. `Register` stands in for that push.
- Whether a path names a real symbol is not checked by the source, nor by the model.
