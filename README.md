# Block Bindings, modelled in Dafny

This project models the Block Bindings API of WordPress. A process-wide registry holds
named binding *sources*. Each source is registered with a label and an `apply` callback.
When a block is rendered, every binding in its metadata names an attribute, a source and
the arguments for that source. The source's callback supplies an override value. That value
is spliced into the block's serialized HTML, either as an element's text or as the value of
an HTML attribute, according to a static table of bindable attributes.

Files and modules:

- `wrappers.dfy` (`Wrappers`): the `Option` type.
- `markup.dfy` (`Markup`): first-match searches over markup, locating a start tag, an
  element's content and a double-quoted attribute value; the text splice `ReplaceText` and
  the attribute setter `SetAttribute`; readers `InnerText` and `GetAttribute`; round-trip and
  idempotence lemmas.
- `attribute_map.dfy` (`AttributeMap`): the table from (block type, attribute) to a target,
  `ReplaceHtml` (the test suite's `replace_html`) and the four unit-test scenarios.
- `source_registry.dfy` (`SourceRegistry`): sources, bindings and blocks as datatypes,
  `ApplyBindings` (how one block's bindings are processed), the `Registry` class (a
  `map` of sources that `Register` updates in place), and the registration test scenario.
- `block_bindings.dfy` (`BlockBindings`): the `Api` class. It holds the function-static
  `$instance` of `wp_block_bindings()` as an `Option<Registry>` field that is filled on first
  use. It also has the three wrapper functions as methods.

Names. The wrapper file calls the registry methods `register_block_bindings_source(name, args)`
and `get_all_registered()`. The unit tests call them `register_source(name, label, apply)` and
`get_sources()`. The model has one of each: `Registry.Register(name, args)`, where `args` is a
`Source(sourceLabel, apply)` value (the test's separate label and callback, paired), and
`Registry.GetSources()`. (`label` is a Dafny keyword, hence `sourceLabel`.) The wrapper's
docblock promises a `WP_Block_Bindings` object, but the wrapper constructs a
`WP_Block_Bindings_Registry`. The model has one registry class.

What the model adds beyond the wrapper file and its unit tests:

- `WP_Block_Bindings_Registry` itself is modelled abstractly. Its `process_bindings` is modelled by
  `ApplyBindings`. It splices the value of every binding whose source is registered and whose
  callback returns a value. Bindings are applied in sequence order, which `ApplyBindingsSplit`
  states. `CallbackValueOverrides`, `UnreferencedSourceIrrelevant` and the no-op contract of
  `ApplyBindings` hold whatever that order is.
- The attribute table has exactly the two entries the unit tests use. `core/paragraph`
  `content` is the text of the `p` element. `core/button` `url` is the `url` attribute of the
  `a` start tag. In WordPress the table comes from the block type registry, which is not part
  of this model.
- Attribute setting replaces the value of the first ` url="…"` inside the start tag. When it
  finds none, it inserts ` url="…"` right after the tag name, where it takes precedence over
  any later occurrence. This is why the test markup `<a url\="">`, whose attribute name in the
  markup is `url\`, still ends up containing the new value.

## Model

| member | source | states |
|---|---|---|
| `AttributeMap.ReplaceHtml` | tests/phpunit/tests/block-bindings.php:60-90 | The markup is returned exactly unchanged when the block type has no bindable attribute of that name, and also when the markup lacks the element or start tag the attribute lives in. |
| `AttributeMap.Lookup` | tests/phpunit/tests/block-bindings.php:29-90 | An attribute has a target exactly when its (block type, attribute) pair is in the table, which holds `core/paragraph` `content` and `core/button` `url`. Every target has a non-empty tag name, and attribute name, without `>`. |
| `AttributeMap.ReplaceHtmlRoundTrip` | tests/phpunit/tests/block-bindings.php:29-58 | For a bindable attribute whose place is present, a suitable value is afterwards what is read back from that place (the element's text or the attribute's value). Suitable means no `<` for element text, and no `<`, `>` or `"` for an attribute. The place is still present and the new markup contains the value. Everything outside that place is kept: only the old content or value is replaced, or only ` name="value"` is inserted after the tag name. |
| `AttributeMap.ReplaceHtmlIdempotent` | tests/phpunit/tests/block-bindings.php:29-90 | Splicing the same suitable value a second time gives the same markup as splicing it once, for every block type and attribute. |
| `AttributeMap.ParagraphContentReplaced` | tests/phpunit/tests/block-bindings.php:32-44 | `replace_html('<p>Hello World</p>', 'core/paragraph', 'content', 'Updated Content')` is exactly `<p>Updated Content</p>`. It contains `Updated Content` and no longer contains `Hello World`. |
| `AttributeMap.ButtonUrlReplaced` | tests/phpunit/tests/block-bindings.php:49-58 | `replace_html` on `<div><a url\="">Hello World</a></div>` for `core/button` `url` with `Updated URL` is exactly `<div><a url="Updated URL" url\="">Hello World</a></div>`. The markup has no readable ` url="`, so ` url="Updated URL"` is inserted right after `<a` and the rest, anchor text included, is untouched. The result contains `Updated URL`. |
| `AttributeMap.UnregisteredBlockUnchanged` | tests/phpunit/tests/block-bindings.php:63-74 | For the unknown block type `NONEXISTENT` the markup is returned exactly as given. |
| `AttributeMap.UnsupportedAttributeUnchanged` | tests/phpunit/tests/block-bindings.php:79-90 | For `core/paragraph` with the unsupported attribute `NONEXISTENT` the markup is returned exactly as given. |
| `Markup.ReplaceText` | tests/phpunit/tests/block-bindings.php:32-44 | Markup without the element is returned unchanged. Otherwise the result's length is the old length, minus the old content's length, plus the new text's length. |
| `Markup.ReplaceTextRoundTrip` | tests/phpunit/tests/block-bindings.php:32-44 | Replacing the text of a present element with text that has no `<` has three effects. The element stays at the same place. Its content is exactly the new text. The result is the old markup with only the old content replaced, so everything before the content and from the end tag on is kept. |
| `Markup.SetAttribute` | tests/phpunit/tests/block-bindings.php:49-58 | Markup without the start tag is returned unchanged. A readable value is replaced, changing the length by the difference of the two values. Otherwise ` name="value"` is inserted, which adds its own length. |
| `Markup.SetAttributeRoundTrip` | tests/phpunit/tests/block-bindings.php:49-58 | Setting an attribute on a present start tag, to a value without `<`, `>`, `"`, keeps the tag present, and the attribute's value read back is the new value. This holds whether the attribute was there before or is inserted. Nothing else changes: either only the old value is replaced, or only ` name="value"` is inserted right after the tag name (the anchor text, for example, is untouched). |
| `SourceRegistry.Registry.constructor` | tests/phpunit/tests/block-bindings.php:15 | A new registry has no sources. |
| `SourceRegistry.Registry.Register` | tests/phpunit/tests/block-bindings.php:21 | The sources afterwards are the old ones plus `name` mapped to the given label and callback; nothing else changes. |
| `SourceRegistry.Registry.GetSources` | tests/phpunit/tests/block-bindings.php:23 | Returns the registry's whole name-to-source map and changes nothing. |
| `SourceRegistry.RegisterThenList` | tests/phpunit/tests/block-bindings.php:14-27 | After registering on a new registry, the listed sources have `name` as a key, and the entry's label and callback equal the registered ones. |
| `SourceRegistry.Registry.ProcessBindings` | src/wp-includes/block-bindings/block-bindings.php:65-79 | The loop over the block's bindings returns `ApplyBindings` of the registry's sources. It reads the registry and does not modify it. |
| `SourceRegistry.BoundValueLocal` | src/wp-includes/block-bindings/block-bindings.php:33-45 | A binding's value depends only on the source it names: registering or replacing any other source leaves it unchanged. |
| `SourceRegistry.ApplyBindings` | src/wp-includes/block-bindings/block-bindings.php:65-79 | The value of a binding (`BoundValue`) is what its registered source's callback returns for the binding's source args, the block instance and the attribute name. A binding has no value when its source is unregistered or its callback returns null, and it is unbindable when the table has no entry. When every binding is one of these, processing returns the markup exactly unchanged. |
| `SourceRegistry.ApplyBindingsSplit` | src/wp-includes/block-bindings/block-bindings.php:65-79 | Processing runs through the bindings one after another: processing `xs + ys` equals processing `ys` on the result of processing `xs`. |
| `SourceRegistry.CallbackValueOverrides` | src/wp-includes/block-bindings/block-bindings.php:33-45 | Take a binding of any block whose other bindings, before and after it, all do not resolve. The string its source's callback returns for (source args, block instance, attribute name) overrides the block's original value: it is what is read back from the bound place of the processed markup. |
| `SourceRegistry.UnreferencedSourceIrrelevant` | src/wp-includes/block-bindings/block-bindings.php:48-79 | Registering a source that no binding of a block refers to does not change how that block's bindings are processed. |
| `BlockBindings.Api.constructor` | src/wp-includes/block-bindings/block-bindings.php:19 | The static instance starts absent, so no sources are visible. |
| `BlockBindings.Api.Instance` | src/wp-includes/block-bindings/block-bindings.php:18-24 | When an instance exists, it is returned and nothing is constructed. Otherwise a fresh, empty registry is constructed, stored and returned. At most one registry is ever constructed. |
| `BlockBindings.InstanceIsShared` | src/wp-includes/block-bindings/block-bindings.php:18-24 | Two successive calls return the same registry object. |
| `BlockBindings.Api.RegisterSource` | src/wp-includes/block-bindings/block-bindings.php:46-50 | Forwards `name` and `args` unchanged to the one registry. The visible sources become the old ones plus `name` mapped to `args`. Nothing is returned. |
| `BlockBindings.Api.GetAllRegistered` | src/wp-includes/block-bindings/block-bindings.php:60-62 | Returns the one registry's list of sources and leaves the sources as they were. |
| `BlockBindings.RegisteredSourceIsListed` | src/wp-includes/block-bindings/block-bindings.php:48-62 | A source registered through the wrapper is listed by `GetAllRegistered` with exactly the args it was registered with, because both act on the same instance. |
| `BlockBindings.Api.ProcessBindings` | src/wp-includes/block-bindings/block-bindings.php:77-79 | Returns exactly the registry's processing result for the same content, block and block instance. The registered sources are unchanged. |

## Left out

- `SourceRegistry.Registry.Register`: registering a name that is already present is excluded by a precondition (`name !in sources`). Neither the wrapper nor its unit tests say what happens then.
- `BlockBindings.Api.RegisterSource`: same precondition as `Register`, for the same reason.
- Escaping the replacement value for HTML text or attribute context is not modelled: the value is spliced verbatim. The round-trip lemmas therefore speak of element text without `<` and attribute values without `<`, `>` and `"`.
- The splicer is a small tokenizer, not the HTML API. Tag names are matched exactly (no case folding). A tag name ends at HTML whitespace, `/` or `>`. A start tag ends at its first `>`, even inside a quoted value. Only double-quoted ` name="…"` attributes are read. Other spellings are treated as absent, and the value is then inserted.
- Which occurrence is replaced when several match is not claimed beyond "the first one found by the scan".
- Neither the wrapper nor its unit tests say in which order several bindings of one block apply. `ApplyBindings` uses sequence order, and `ApplyBindingsSplit` states that order. `CallbackValueOverrides`, `UnreferencedSourceIrrelevant` and the no-op contract of `ApplyBindings` do not depend on it.
- The concrete `apply` callbacks (post meta, pattern overrides) and the `WP_Block` instance are foreign code. A callback is a Dafny function value of `ApplyCallback` type, and the instance is an uninterpreted `BlockInstance` record whose `context` nothing in the model reads. PHP closure equality becomes value equality. Callback side effects are not modelled.
- The block is reduced to its name and its bindings metadata. The other parsed attributes are not read by anything modelled.
- The bindable-attribute table holds only the two pairs the unit tests exercise. The block type registry it is derived from is not part of this model.
