# pluginval list-option codec, modelled in Dafny

pluginval runs plugin validation in a separate worker process. The validation
options are carried to that process as JUCE `var` values. A list-valued option
(`std::vector<T>`) becomes one string value through the `juce::VariantConverter<std::vector<T>>`
specialisation in `Source/Validator.h`:

- `toVar` writes `""` for an empty vector. Otherwise it writes the first element's
  text, then appends `','` and the text of each later element, in order.
- `fromVar` requires a string value. It splits the string with
  `StringArray::fromTokens (text, ",", "")` and converts each token back to `T`,
  appending to a fresh vector in token order.

This project models that codec with `T` an integer type, in three modules:

- `Decimal` (`decimal.dfy`): how one element is written (`String (int)`, `String::operator<<`)
  and read back (`var (token)` converted to `int`, that is `String::getIntValue`). Writing
  gives a canonical decimal text: an optional `-`, then digits with no leading zero. Reading
  skips an optional `-`, reads the longest run of digits, and gives 0 when there are none.
- `Tokens` (`tokens.dfy`): the tokenizer as the specification functions `TokenEnd`, `SplitAll`
  and `Tokenize`. It yields no token for `""`. Otherwise it breaks at every comma and keeps
  empty tokens (`"a,,b"` gives `"a"`, `""`, `"b"`). It does no trimming and has no quotes.
  `Join` is its inverse: tokens with a comma between neighbours.
- `ListCodec` (`list_codec.dfy`): a `Var` datatype for the JUCE value, the specification
  functions `Encode`/`Decode`, and the two operations as methods with loops. `ToVar`
  appends to a string as `std::for_each` does. `FromVar` pushes one element per token as
  the source's `for` loop does. Each method is proved equal to its specification function.

The main results:
- `DecodeEncode` proves decoding inverts encoding for every list, including the empty list.
- `EncodeShape` proves an encoding of n elements has n - 1 commas.
- `DecodeLength` proves decoding gives one element per token.
- `TokenizeJoin` proves the text layer is lossless for comma-free tokens exactly when the
  token list is not the single empty token.

## Model

| member | source | states |
|---|---|---|
| `Decimal.NatToText` | Source/Validator.h:50-51 | an element's digits are non-empty and all decimal digits; a leading `0` occurs only in the text `"0"`, which is written only for 0 |
| `Decimal.IntToText` | Source/Validator.h:50-51 | an element's text is non-empty, starts with `-` exactly when the element is negative, is otherwise digits, never contains a comma, and has no leading zero after the sign (0 is written `"0"`) |
| `Decimal.ParseInt` | Source/Validator.h:40 | converting a token never fails: the value is non-positive after a leading `-`, non-negative otherwise, and 0 when no digit follows the optional sign; `ParseIntOfIntToText` proves it reads back every element's text |
| `Decimal.LeadingDigits` | Source/Validator.h:40 | the token parser reads exactly the longest run of digits at the start of the token and stops at the first non-digit |
| `Decimal.DigitsValueOfNatToText` | Source/Validator.h:40 | reading the digits written for a natural number gives that number |
| `Decimal.ParseIntOfIntToText` | Source/Validator.h:40 | converting an element's text back to an integer gives the element again |
| `Decimal.IntToTextInjective` | Source/Validator.h:50-51 | two integers get the same text if and only if they are equal |
| `Tokens.Tokenize` | Source/Validator.h:39 | the tokenizer yields no token exactly when the text is empty; `TokenizeCount` and `JoinTokenize` state its token count and that joining its tokens restores the text |
| `Tokens.SplitAll` | Source/Validator.h:39 | breaking a text at every comma always yields at least one token, even for `""` |
| `Tokens.TokenEnd` | Source/Validator.h:39 | a token ends at the first comma, or at the end of the text when there is no comma |
| `Tokens.SplitAllTokens` | Source/Validator.h:39 | splitting gives comma-free tokens, exactly one more than the text has commas |
| `Tokens.JoinSplitAll` | Source/Validator.h:39 | the tokens with commas put back between them are the original text |
| `Tokens.SplitAllJoin` | Source/Validator.h:39 | splitting the comma join of one or more comma-free tokens gives those tokens back, empty tokens included |
| `Tokens.JoinTokenize` | Source/Validator.h:39 | tokenizing then joining returns every text unchanged, the empty text included |
| `Tokens.TokenizeCount` | Source/Validator.h:39 | the empty text has no tokens; any other text has one token more than commas, none holding a comma |
| `Tokens.TokenizeJoin` | Source/Validator.h:33-53 | for comma-free tokens, tokenizing their join gives them back if and only if they are not the single empty token |
| `Tokens.JoinSnoc` | Source/Validator.h:51 | appending `,` and one more token to a non-empty join is the join of the extended token list |
| `Tokens.JoinFirstThenPrefixed` | Source/Validator.h:50-51 | a non-empty join is the first token followed by `,` plus each later token, in order |
| `Tokens.JoinShape` | Source/Validator.h:50-51 | joining n comma-free tokens gives n - 1 commas, and its length is their total length plus n - 1 |
| `ListCodec.ToVar` | Source/Validator.h:45-53 | the result is a string value equal to the encoding; it is `""` for an empty vector, otherwise the first element's text followed by `,` and the text of each later element |
| `ListCodec.FromVar` | Source/Validator.h:33-43 | for a string value, the result has exactly one element per token, each the token's integer value, in token order; `""` gives an empty vector |
| `ListCodec.DecodeEncode` | Source/Validator.h:33-53 | decoding the encoding of any integer list, with 0, 1 or more elements, returns the list |
| `ListCodec.EncodeEmpty` | Source/Validator.h:47-48 | the encoding is `""` if and only if the list is empty |
| `ListCodec.EncodeShape` | Source/Validator.h:50-51 | a non-empty list of n elements encodes to a text with exactly n - 1 commas, of length the total element text length plus n - 1 |
| `ListCodec.DecodeLength` | Source/Validator.h:37-40 | decoding `""` gives no element; decoding any other text gives one element more than commas |
| `ListCodec.EncodeInjective` | Source/Validator.h:45-53 | two lists have the same encoding if and only if they are equal |

## Left out

- The `Validator` class (Source/Validator.h:64-115): process spawning, pipes and cross-thread dispatch through `AsyncUpdater`/`ChangeBroadcaster`. This is I/O and concurrency, and only its declarations are in the header.
- `addListener`/`removeListener` (Source/Validator.h:102-103): thin wrappers over JUCE's `ListenerList`, whose code is not part of this model.
- `invokeChildProcessValidator` (Source/Validator.h:122): a declared process entry point with no body in the header.
- Logging switches (Source/Validator.h:20-26): compile-time constants with no behaviour here.
- Element types other than integers: `T` is a template parameter, and floating-point printing and parsing (`std::vector<double>`) are not modelled.
- Integer width: elements are unbounded integers. `String::getIntValue` wraps to 32 bits, which does not matter for values that came from an `int`.
- `Decimal.ParseInt`: does not skip leading whitespace as `String::getIntValue` does, because the tokens the encoder writes never contain any.
- The rest of JUCE `var`: `Var` has only the void, integer and string cases. In a release build the `jassert` is compiled out and a non-string value is converted with `var::toString`. The model takes the assertion as a precondition of `FromVar` instead.
