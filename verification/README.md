# output_streams, modelled in Dafny

This project models the Ruby library `OutputStreams` (lib/output_streams.rb).
The library assembles output of one media type from typed pieces of content:

- a `StreamPart` is a string tagged with its media type (`text/plain`, `text/html`, ...);
- a `ConvertersHash` registry maps an exact `(from, to)` pair of media types to a converter;
- an `OutputStream` with a fixed output type converts each part it is given and
  concatenates the results in order.

The library raises one error of its own: a conversion for which no converter
is registered. `output` also raises Ruby's `NoMethodError` when an argument is
not a part. The model's parameter types exclude that case (see "Left out").

Modules, one per component:

| file | module | models |
|---|---|---|
| wrappers.dfy | `Wrappers` | `Option` (Ruby's `nil`), `Result` / `Outcome` (a raised error) |
| media_types.dfy | `MediaTypes` | media type symbols, compared only for equality |
| html_escape.dfy | `HtmlEscape` | the built-in converter's HTML escaping, with a reference inverse |
| decimal.dfy | `Decimal` | `Integer#to_s`, with a reference parser |
| converters.dfy | `Converters` | `ConvertersHash#[]`, `#[]=`, the built-in registration |
| stream_parts.dfy | `StreamParts` | `StreamPart.new`, `to_stream_part`, `convert!`, `convert` |
| output_stream.dfy | `OutputStreams` | `OutputStream#output` |

The registry is an explicit `Registry` value passed to every operation that
needs it. The class variable `@@converters` becomes `Converters.Builtin()`, the
registry as the library initialises it. Converters are total functions
`string -> string`. A part is the datatype `StreamParts.StreamPart`, built like
`StreamPart.new(type, content)`. Conversions return `Result<StreamPart, ConversionNotFound>`,
where the error carries the source and target types.

Parts are immutable `StreamPart` values in the functional model. The class
`StreamParts.Part` models what depends on object identity and mutation:

- `convert!` changes the receiver in place;
- `convert` converts a fresh copy;
- `to_stream_part` returns the same object when given a part.

The registry also has a second, independent description: the sequence of
`[]=` calls that built it. `Converters.LastRegistered` is the reference lookup
over that sequence, and `Converters.LookupBuild` proves the hash-of-hashes
lookup agrees with it.

`OutputStream#output` calls `part.convert` on each argument directly. It does
not normalise its arguments through `to_stream_part`. Raw values are therefore
not stringified, and `nil` arguments are not skipped. The model follows the code:
`Output` takes a sequence of `StreamPart`s.

## Model

| member | source | states |
|---|---|---|
| StreamParts.Part.constructor | lib/output_streams.rb:58-61 | `StreamPart.new(type, content)` gives an object whose state is exactly that type and content |
| Converters.Lookup | lib/output_streams.rb:28-32 | a converter is found exactly when the source type has an inner hash that holds the target type |
| Converters.Register | lib/output_streams.rb:33-36 | after `[]=(from, to, cnv)` the lookup of `(from, to)` returns `cnv`, and the lookup of every other pair is unchanged |
| Converters.RegisterReplaces | lib/output_streams.rb:33-36 | re-registering a pair replaces the old converter |
| Converters.LookupEmpty | lib/output_streams.rb:24-32 | a fresh registry finds nothing for any pair |
| Converters.LastRegistered | lib/output_streams.rb:28-36 | reference lookup over the registration history: absent exactly when the pair was never registered, otherwise a converter registered for that pair |
| Converters.LookupBuild | lib/output_streams.rb:28-36 | looking up a pair in a registry built by a sequence of `[]=` calls returns the converter of the last call for exactly that pair, or nil if there was none |
| Converters.ExactPairOnly | lib/output_streams.rb:28-32 | a converter is found for `(from, to)` if and only if that very pair was registered |
| Converters.NoChaining | lib/output_streams.rb:28-32 | with `(a, b)` and `(b, c)` registered, `(a, c)` is still not found |
| Converters.Builtin | lib/output_streams.rb:54-55 | the initial registry holds exactly one pair, `text/plain` to `text/html`, and its converter is HTML escaping |
| HtmlEscape.EscapeChar | lib/output_streams.rb:55 | each escaped character yields text that starts with `&` exactly when the character is special, and that contains no raw `< > " '` |
| HtmlEscape.Escape | lib/output_streams.rb:55 | escaped text is never shorter than the input and contains no raw `< > " '` |
| HtmlEscape.EscapeAppend | lib/output_streams.rb:55 | escaping distributes over concatenation |
| HtmlEscape.EscapePlain | lib/output_streams.rb:55 | text with none of `& < > " '` is left unchanged |
| HtmlEscape.UnescapeEscape | lib/output_streams.rb:55 | escaping loses no information: decoding the five entities gives back the input |
| HtmlEscape.EscapeExample | lib/output_streams.rb:55 | `<b>&` escapes to `&lt;b&gt;&amp;` |
| HtmlEscape.EscapeTagExample | lib/output_streams.rb:55 | `A` is left as it is and `<b>` escapes to `&lt;b&gt;` |
| Decimal.IntToString | lib/output_streams.rb:72 | `to_s` of an integer is canonical decimal text: a `-` exactly for negative numbers, then digits with no leading zero, and `0` for zero |
| Decimal.ParseIntToString | lib/output_streams.rb:72 | the text of an integer reads back as that integer |
| StreamParts.ToS | lib/output_streams.rb:72 | `to_s` of an integer is its canonical decimal text, which reads back as the integer; any other object gives the text its own `to_s` returns |
| StreamParts.ToStreamPart | lib/output_streams.rb:66-74 | nil gives nil and only nil does, a part is returned as it is, and any other value becomes a `text/plain` part holding its `to_s` |
| StreamParts.ToStreamPartIdempotent | lib/output_streams.rb:66-74 | normalising an already normalised value changes nothing |
| StreamParts.Convert | lib/output_streams.rb:77-86 | converting to the current type returns the part unchanged; a success always has the target type; failure happens exactly when the types differ and no converter is registered for the pair, and it carries both types |
| StreamParts.ConvertApplies | lib/output_streams.rb:80-85 | a non-identity conversion with converter `cnv` gives content `cnv(old content)` and type `t`, together |
| StreamParts.ConvertIdentity | lib/output_streams.rb:78 | the identity conversion gives the same result whatever the registry holds, even when it is empty |
| StreamParts.ConvertIdempotent | lib/output_streams.rb:77-86 | converting again to the type just reached changes nothing |
| StreamParts.ConvertSucceedsIff | lib/output_streams.rb:78-82 | against a registry built by registrations, conversion succeeds exactly when the target is the current type or that exact pair was registered |
| StreamParts.ConvertNoChaining | lib/output_streams.rb:80-82 | with `a -> b` and `b -> c` registered, converting an `a` part to `c` fails with the error naming `a` and `c` |
| StreamParts.ConvertFrame | lib/output_streams.rb:80-82 | registering a different pair does not change the outcome of a conversion |
| StreamParts.ConvertBuiltinEscapes | lib/output_streams.rb:80-85 | with the initial registry, a plain part converted to HTML holds the escaped content |
| StreamParts.ConvertBuiltinExample | lib/output_streams.rb:55 | the plain part `<b>&` converts to the HTML part `&lt;b&gt;&amp;` |
| StreamParts.Part.ToStreamPart | lib/output_streams.rb:66-74 | on objects: nil gives null, a part gives the very same object, anything else gives a new `text/plain` part |
| StreamParts.Part.ConvertInPlace | lib/output_streams.rb:77-86 | `convert!` on failure leaves type and content as they were; on success the new type and content are those of `Convert` |
| StreamParts.Part.ConvertCopy | lib/output_streams.rb:89-93 | `convert` leaves the receiver untouched and returns a fresh part equal to what `convert!` would produce, or the same error |
| OutputStreams.Join | lib/output_streams.rb:19 | `join ''` puts no separator in: one string joins to itself, the result starts with the first string, and it is empty exactly when every piece is empty |
| OutputStreams.Contents | lib/output_streams.rb:19 | the `.content` of each part, index by index |
| OutputStreams.JoinAppend | lib/output_streams.rb:19 | joining with no separator distributes over concatenation |
| OutputStreams.ConvertAll | lib/output_streams.rb:19 | the parts are converted in order; the result succeeds exactly when every part converts, then holds the converted parts index by index; otherwise it carries the error of the first part that fails |
| OutputStreams.ConvertAllAppend | lib/output_streams.rb:19 | converting a concatenation converts the left half first and stops at the first error |
| OutputStreams.OutputStream.Output | lib/output_streams.rb:18-19 | output succeeds exactly when every part converts to the output type; on failure no string is produced and the error is that of the first failing part |
| OutputStreams.OutputEmpty | lib/output_streams.rb:18-19 | with no parts the output is the empty string |
| OutputStreams.OutputSingle | lib/output_streams.rb:18-19 | one part gives its converted content or its conversion error |
| OutputStreams.OutputAppend | lib/output_streams.rb:18-19 | the output of `a + b` is the output of `a` followed by that of `b`, or the first error, the left half first |
| OutputStreams.OutputContents | lib/output_streams.rb:18-19 | when every part converts, the output is the concatenation of the converted contents in argument order, with no separator |
| OutputStreams.OutputUnconverted | lib/output_streams.rb:18-19 | parts already of the output type are emitted verbatim, whatever the registry holds |
| OutputStreams.OutputPlainToHtml | lib/output_streams.rb:18-19 | an HTML stream given two plain parts outputs the escape of the first followed by the escape of the second |
| OutputStreams.OutputExample | lib/output_streams.rb:18-19 | an HTML stream turns the plain parts `A` and `<b>` into `A&lt;b&gt;` |

`HtmlEscape.Unescape` and `Decimal.Parse` are reference inverses. They are used
only to state round trips and do not model code of the library.

## Left out

- `ERB::Util.html_escape` is a library call whose body is not part of this model. It is modelled as a per-character escape of `& < > " '` into `&amp; &lt; &gt; &quot; &#39;`. The model claims nothing else about it, for example how it treats strings already marked safe.
- Registering `nil` as a converter is not modelled. Ruby accepts it, and a later lookup of that pair returns nil. In the model converters are total functions.
- Converters that raise, return a non-string or have side effects are not modelled: a converter is a pure `string -> string`.
- `to_s` of arbitrary objects is not modelled: an object other than an integer is given by the text its `to_s` returns (`ObjectValue`).
- The text of the error message is not modelled: the error carries the source and target types only.
- `cattr_reader` and the process-wide mutable `@@converters` are not modelled. The registry is a value passed explicitly, and `Converters.Builtin()` is its initial state.
- Thread safety is not modelled, nor observers of a part during `convert!`. The source assigns the content first and then the type. The model assigns both in one statement, which is the same for a caller that looks only after `convert!` returns.
- Strings in the model are values, so their sharing between objects is not modelled. In Ruby, `dup` copies a part shallowly: after an identity `convert`, the copy holds the receiver's very content string. `to_stream_part` of a string also keeps the caller's string object, because `String#to_s` returns the string itself. A caller that mutates such a string in place sees the change through every part that shares it. The library's own operations never mutate a content string: `convert!` reassigns the field. With pure converters the sharing therefore cannot be observed through the library.
- Object identity appears only in the class `StreamParts.Part`. The functional model works on part values.
- OutputStreams.OutputStream.Output: an argument that is not a `StreamPart`, such as `nil` or a raw string, makes `output` raise `NoMethodError` when `convert` is called on it. The parameter type `seq<StreamPart>` excludes such arguments, so this error is not modelled.
- Ruby's argument splat in `output(*parts)` is modelled as a sequence of parts.
