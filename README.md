# css-var, modelled in Dafny

A model of the runtime of `dist/css-var.js`. The file contains two pieces:

- **`createCssVar`, the CSS-variable name registry.** Each registry owns a settings record `{prefix, minify}` and a table from logical key to numeric id. Ids come from one process-wide counter, so all registries share them. On a key's first access, `decl(key)` allocates the next id. It then renders the custom-property name from the current settings and the stored id. `ref(key)` wraps that name in `var(...)`. An assignment through the settings view goes through its `set` handler. Writes through the ref and decl views throw.
- **`fallbacks(first, ...next)`, the fallback composer.** Each reference loses its trailing run of `)`. The fragments are joined with `,`, and all the stripped `)` are put back at the end, so `var(--a)`, `var(--b)` becomes `var(--a,var(--b))`.

Files:

- `css_var.dfy` (module `CssVar`) holds the registry:
  - `Config` is the process-wide defaults.
  - `IdCounter` is `globalIdCounter`.
  - `Registry` is a class with `settings` and `idMap` fields and the methods `Decl`, `Ref`, `TrySet` and `SetReadonly`.
  - `DeclName`/`RefName` render names, and lemmas about them follow.
- `fallbacks.dfy` (module `Fallbacks`) holds the composer:
  - the specification function `Fallbacks`;
  - `ComposeFallbacks`, a loop that works the way the source's `map` callback does, adding to a running total of stripped `)`;
  - lemmas about the shape, character content and parenthesis balance of the result.
- `decimal.dfy` (module `Decimal`) writes an id in decimal, as `${id}` does, and reads it back.
- `wrappers.dfy` (module `Wrappers`) defines `Option`, which stands for nullish values (`??`), and `Result`, which stands for a thrown error.

Two details of the code matter for the names:

- `decl` allocates an id on every first access, whether or not minification is on (css-var.js:54-57).
- The unminified body is `{key}-{id}` (css-var.js:58). The doc comment at css-var.js:49 shows `--my-favColor`, but the code appends `-{id}`.

So a name is `--{prefix}-{key}-{id}`, `--{key}-{id}`, `--{prefix}-v{id}` or `--v{id}`. The prefix counts only when it is a non-empty string (css-var.js:59).

The id is always the trailing digit run of a name. So the model proves that two different ids never render to the same name, under any settings and for any keys. Within one registry, different keys hold different ids, so they get different names (`NamesDistinctWithin`). When a registry allocates an id, the new id is larger than every id any other registry on the same counter already holds. So the new name differs from all of that registry's names (`DeclAcross`). Keys inherited from `Object.prototype` are an exception; see "## Left out".

## Model

| member | source | states |
|---|---|---|
| `CssVar.Config.constructor` | dist/css-var.js:5-8 | the process-wide defaults start as prefix `""` and minify `true` |
| `CssVar.IdCounter.constructor` | dist/css-var.js:35 | the shared id counter starts at 0 |
| `CssVar.Registry.constructor` | dist/css-var.js:39-47 | each of prefix and minify takes the option when it is present (non-nullish), else the default current at construction; the id table starts empty; the registry keeps the shared defaults and counter |
| `CssVar.Registry.Decl` | dist/css-var.js:53-60 | on a key's first access the counter goes up by one, and exactly that key is added to the table with the new counter value, which is larger than every id already in the table; on later accesses neither the table nor the counter changes; settings are untouched; the result is the name rendered from the current settings and the stored id; the invariant (ids positive, issued, one key per id) is kept |
| `CssVar.Registry.Ref` | dist/css-var.js:66-68 | the same allocation effect as `Decl`, and the result is `var(` + the declaration name + `)` |
| `CssVar.Registry.TrySet` | dist/css-var.js:12-30 | succeeds exactly for the fields `prefix` and `minify`; an unknown field leaves the settings unchanged; an absent value is replaced by the current default; only the named field takes the resolved value, and the other field and the id table stay as they were; when the resolved value equals the old one, nothing changes |
| `CssVar.Registry.SetReadonly` | dist/css-var.js:32-34 | writing through the ref or decl view always fails with the error "Setter `{propName}` is not supported." and changes no state |
| `CssVar.NameHead` | dist/css-var.js:59 | the name begins with `--`; the prefix part is `--{prefix}-` exactly when the prefix is non-empty, and `--` otherwise |
| `CssVar.NameBody` | dist/css-var.js:58 | the body is `v` when minified and `{key}-` otherwise; it never ends in a digit |
| `CssVar.DeclName` | dist/css-var.js:58-59 | every declaration name starts with `--` and ends in a digit |
| `CssVar.DeclNameCarriesId` | dist/css-var.js:56-59 | the trailing digit run of any declaration name is the decimal spelling of its id, and parsing it gives the id back |
| `CssVar.DeclNameDeterminesId` | dist/css-var.js:56-59 | two declaration names that are equal carry the same id, under any settings and keys |
| `CssVar.UnminifiedNameDeterminesKey` | dist/css-var.js:58-59 | under one unminified setting, equal names have equal keys and equal ids |
| `CssVar.MinifiedNameIgnoresKey` | dist/css-var.js:58-59 | a minified name is the head + `v` + id and does not depend on the key |
| `CssVar.RefNameClosing` | dist/css-var.js:67 | a reference ends in exactly one `)`, and stripping it leaves `var(` + the declaration name |
| `CssVar.RefNamesCompose` | dist/css-var.js:89-102 | composing two references gives `var({declA},var({declB}))` |
| `CssVar.NamesDistinctWithin` | dist/css-var.js:53-59 | in a registry whose table holds each id once, two different keys render to different names |
| `CssVar.DeclAcross` | dist/css-var.js:53-59 | `decl` on one registry while another shares its counter: the other registry's table and settings are untouched, both keep their invariant, and on a first access the new id is larger than every id of the other registry and the new name differs from every one of its names |
| `CssVar.SharedCounterNamesDiffer` | dist/css-var.js:53-57 | two new registries that share the counter: the id read back from the second name is larger than the id read back from the first, and the names differ, whatever the settings |
| `CssVar.StableThenRenamed` | dist/css-var.js:53-60 | asking for a key twice gives the same name; after the prefix is changed, the key keeps its id and its name is rendered with the new prefix |
| `Decimal.NatToString` | dist/css-var.js:59 | an id is written as a non-empty run of decimal digits with no leading zero |
| `Decimal.ParseNatToString` | dist/css-var.js:59 | parsing the decimal spelling of a number gives the number back |
| `Decimal.NatToStringInjective` | dist/css-var.js:59 | different ids are spelled differently |
| `Fallbacks.TrailingCloseCount` | dist/css-var.js:93 | the count is the length of the maximal trailing `)` run: no longer than the string, and the character before the run is not `)` |
| `Fallbacks.TrailingCloseRun` | dist/css-var.js:93 | the counted suffix consists of `)` only |
| `Fallbacks.StrippedRestores` | dist/css-var.js:95 | a stripped reference plus its stripped `)`s is the original, and the stripped part never ends in `)` |
| `Fallbacks.Closers` | dist/css-var.js:102 | the closing suffix has exactly the requested length |
| `Fallbacks.ComposeFallbacks` | dist/css-var.js:86-103 | the loop (strip each reference, add to the running total, put a comma after every fragment but the last, then close) computes `Fallbacks` |
| `Fallbacks.FallbacksOfOne` | dist/css-var.js:86-88 | a single argument is returned unchanged |
| `Fallbacks.FallbacksOfTwo` | dist/css-var.js:89-102 | two arguments give stripped(a) + `,` + stripped(b) + as many `)` as were stripped from both |
| `Fallbacks.FallbacksClosing` | dist/css-var.js:89-102 | with two or more arguments, the result ends in exactly as many `)` as were stripped from all arguments together |
| `Fallbacks.StripOneClosing` | dist/css-var.js:93-95 | `var(x)` with `x` not ending in `)` loses exactly one `)` |
| `Fallbacks.FallbacksOfTwoReferences` | dist/css-var.js:89-102 | `var(x)`, `var(y)` compose to `var(x,var(y))` |
| `Fallbacks.FallbacksPlainExample` | dist/css-var.js:89-102 | `var(--a)`, `var(--b)` compose to `var(--a,var(--b))` |
| `Fallbacks.FallbacksNestedExample` | dist/css-var.js:89-102 | `var(--a, 0)`, `var(--b)` compose to `var(--a, 0,var(--b))` |
| `Fallbacks.FallbacksCount` | dist/css-var.js:89-102 | every character of the arguments appears in the result as often as it does in all arguments together; the only characters added are commas, one between each pair of neighbouring arguments |
| `Fallbacks.FallbacksBalanced` | dist/css-var.js:89-102 | if every argument has balanced parentheses, so does the result |

## Left out

- The `Proxy`/`Reflect` machinery and symbol-typed property names (css-var.js:71-80) are left out. The views are ordinary methods that take a string key, and a write through either view is the method `SetReadonly`.
- CssVar.Registry.Decl: the id table is a plain object (css-var.js:47), so `idMap[propName]` (css-var.js:54) also finds members inherited from `Object.prototype`, such as `constructor`, `toString`, `valueOf`, `hasOwnProperty` and `__proto__`. For such a key the source allocates nothing, leaves the counter as it is, and renders the inherited member's text in place of the id. The model treats every key as absent until it is first accessed, so for those keys it allocates a fresh id. Its uniqueness results do not cover them.
- CssVar.Registry.Ref: it shares `Decl`'s treatment of keys inherited from `Object.prototype`, through `decl` (css-var.js:67).
- The settings view traps only assignment (css-var.js:80). `delete` and `Object.defineProperty` on it reach the settings object without that check. The model's settings change only through `TrySet`.
- The `...options` spread (css-var.js:42) is left out. It can copy extra keys into the settings object. The JavaScript `in` test (css-var.js:13) also accepts inherited prototype properties. The model recognises exactly `prefix` and `minify`.
- The `default: return newValue` branch (css-var.js:20) is left out. It cannot be reached once the fields are exactly the two known ones.
- CssVar.Registry.TrySet: a value is typed per field, as the settings type in css-var.d.ts declares (prefix a string, minify a boolean). The requires clause `ValueFits` excludes a wrongly typed value for a known field. JavaScript would store such a value anyway.
- Nullish and truthy coercion is modelled only as two rules. `null`/`undefined` is `None` and means "use the default". The prefix counts only when it is a non-empty string.
- The regular expression `/\)+$/`, `substr` and `Array(n).fill(')')` (css-var.js:93-95, 102) are replaced by a recursive trailing-`)` counter, sequence slicing and `Closers`.
- `config` is a class with two public fields. Callers that overwrite the defaults assign those fields directly, so it has no methods.
- The id counter is an unbounded `nat`. JavaScript numbers lose integer precision above 2^53, which is not modelled.
- Module export plumbing (css-var.js:2-3, 83-84, 104) and the type declarations in css-var.d.ts have no behaviour to model. The source has no I/O, concurrency or floating point.
