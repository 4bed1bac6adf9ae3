# lemon-py, modelled in Dafny

lemon-py turns a lemon grammar, with a `@lexdef … @endlex` block of lexer
rules in its comments, into a Python extension module. This project models
its deterministic core and proves properties of it:

- **The lexer-specification compiler** (`BuildLexer`, `LexDefLines`,
  `LegacyBuildLexer`, `BuildGrammar`). It cuts the rule block out of the
  grammar and classifies each line as a skip, value, literal or string rule.
  It parses the rule syntax, escapes the payloads and renders one C++
  registration call per rule. The module-name and skeleton helpers of the
  build script go with it. Python's `str` and `re` operations that these use
  are modelled in `PyStr` and `PyRe`, and Python exceptions become a
  `Result` error.
- **The runtime lexer and parser state** of the generated C++:
  - the interning `StringTable`;
  - the `PTNode` prefix tree of literals (`PrefixTree`);
  - the `Lexer` class (`Lexer`, `CrustLexer`);
  - the parser's node arena, and `uplift_node`, which copies the pointer
    tree into value nodes (`Parser`, `PrototypeParser`).
- **The value parse tree** (`ParseTree`, `Sanitize`, `Dotify`): equality,
  child access, moves, DOT-label escaping and the DOT statements.
- **The vendored utf8-cpp codec** (`Utf8`, `Utf8Api`, `Utf16`):
  - UTF-8 validation and encoding per section 3 of RFC 3629;
  - replacement of invalid sequences;
  - conversion to and from UTF-32;
  - UTF-16 surrogate pairs per sections 2.1 and 2.2 of RFC 2781.

Modelling choices:

- Regular expressions appear as text where the Python code only carries them.
  Where the C++ lexer runs them, they are an abstract matcher: a function
  from pattern, input and position to a match.
- Iterators are indexes.
- Pointers into the parser's node map are addresses that the parser hands
  out and never reuses.
- C++ exceptions are `Result` errors.
- A read outside a container is either a precondition or an explicit outcome:
  - `requires` where the caller guarantees the read is in range;
  - `ReadsPastEnd` where it is the finding being shown.
- A skip loop that never ends is the outcome `SkipNeverEnds`.

Where the documented behaviour and the code disagree, the model follows the
code:

- `!` alone on a rule line raises `IndexError`. The specification describes
  no rule for it.
- The older compiler raises `IndexError` on a blank line inside its block.
- `make_lexer` emits no name entry for end of input.
- The prologue of `print_lang_header` keeps the two characters `\s`, since
  the string is not raw.
- When `next` throws `invalid_code_point`, the value it carries is 0:
  `validate_next` writes its code point only on success.

## Model

| member | source | states |
|---|---|---|
| BuildLexer.EscapeBackslash | src/lemon_py/BuildLexer.py:47-48 | When `extra` is not `\`, the two `replace` passes equal escaping each character once (`\` becomes `\\`, `extra` becomes `\extra`). |
| BuildLexer.EscapeEachIsEscape | src/lemon_py/BuildLexer.py:47-48 | Replacing `\` first and then `extra` is the same as the character-by-character escape. |
| BuildLexer.UnescapeEscape | src/lemon_py/BuildLexer.py:47-48 | Reading the escaped text back as a C literal gives the input again. |
| BuildLexer.EscapeLength | src/lemon_py/BuildLexer.py:47-48 | The output is longer than the input by the number of `\` plus the number of `extra`. |
| BuildLexer.EscapedHasNoBareExtra | src/lemon_py/BuildLexer.py:47-48 | Every `extra` in the output belongs to a `\` pair, so it cannot close the C literal. |
| BuildLexer.ScanRegex | src/lemon_py/BuildLexer.py:51-62 | Input of length 0 or 1 gives None. A leading `=` raises the regex-expected `RuntimeError`, and nothing else raises. Otherwise the flag is CaseSensitive exactly when the first character is `:`. The pattern reads back, as a C literal, as the stripped text after that colon. |
| BuildLexer.ScanLiteral | src/lemon_py/BuildLexer.py:44-78 | It never raises, and input of length 0 or 1 gives None. With no `\s+(:)[:]?\s+` match, the literal reads back as everything after `=`, stripped, and there is no terminator. Otherwise the literal reads back as the stripped text up to the separator's first colon, and the terminator is `scan_regex` of the rest. |
| BuildLexer.ScanLexLine | src/lemon_py/BuildLexer.py:80-100 | A blank line gives None. A rule is a skip exactly when the stripped line starts with `!`, and a string rule exactly when it starts with `'`. Value and literal rules carry a non-empty stripped token without `:`. The only exceptions are IndexError, TypeError and the regex-expected RuntimeError. |
| BuildLexer.ScanSkipLine | src/lemon_py/BuildLexer.py:84-86 | A `!` line gives a skip rule or raises IndexError or the RuntimeError, nothing else. |
| BuildLexer.ScanStringLine | src/lemon_py/BuildLexer.py:87-89 | A `'` line gives a string rule or raises IndexError, nothing else. |
| BuildLexer.ScanTokenLine | src/lemon_py/BuildLexer.py:90-100 | A token line gives None, raises IndexError or TypeError, or gives a value or literal rule whose token is non-empty, stripped and free of `:`. |
| BuildLexer.ScanRule | src/lemon_py/BuildLexer.py:95-100 | After the colon, `=` gives a literal and anything else gives a value rule with the same token. TypeError is raised when a part is missing. |
| BuildLexer.TokenHasNoColon | src/lemon_py/BuildLexer.py:91-92 | The token taken before the first `:` contains no `:`, even when `find` gives -1. |
| BuildLexer.Collect | src/lemon_py/BuildLexer.py:109 | `filter` over `map` keeps the present results in order, and an exception from any line is the pipeline's exception. |
| BuildLexer.MapConcat | src/lemon_py/BuildLexer.py:109 | `map` over two blocks is the two maps joined in order. |
| BuildLexer.PresentConcat | src/lemon_py/BuildLexer.py:109 | The values `filter` keeps from two blocks are those of the first block, then those of the second. |
| BuildLexer.PresentOne | src/lemon_py/BuildLexer.py:109 | One result contributes its value when it is present and nothing when it is falsy. |
| BuildLexer.CollectConcat | src/lemon_py/BuildLexer.py:109 | Consuming two blocks gives the first block's exception, else the second's, else the first block's values followed by the second's. |
| BuildLexer.CollectOne | src/lemon_py/BuildLexer.py:109 | One result gives its exception, or its value when present, or nothing. |
| BuildLexer.ScanLines | src/lemon_py/BuildLexer.py:109 | On success the rules are the present results of scanning each line, in line order. Scanning fails only with IndexError, TypeError or the regex-expected RuntimeError. |
| BuildLexer.ScanLinesConcat | src/lemon_py/BuildLexer.py:109 | Scanning two blocks of lines gives the first block's exception, else the second's, else the first block's rules followed by the second's. |
| BuildLexer.ScanLinesOne | src/lemon_py/BuildLexer.py:109 | One line gives its rule, nothing when its scan is falsy, or its exception. |
| BuildLexer.ScanLexerDef | src/lemon_py/BuildLexer.py:103-110 | It raises "No lexer definition found." exactly when `@lexdef` is absent. Any other exception is one a line scan raises. On success the rules are the present scans, in order, of the lines after the `@lexdef` line up to `@endlex`. |
| BuildLexer.CStringQuotes | src/lemon_py/BuildLexer.py:130-134 | The literal is the text between double quotes, with `L` in front exactly when `uni` is set. |
| BuildLexer.DecodeStringSpec | src/lemon_py/BuildLexer.py:114-126 | A code with fewer than two characters, once whitespace is removed, raises IndexError. Otherwise the delimiter is character 0 and the escape character 1. SpanNewlines is set iff `!` or `s` follows them, and JoinAdjacent iff `j` does. |
| BuildLexer.WhitespaceIgnored | src/lemon_py/BuildLexer.py:115 | Whitespace anywhere in the code does not change its meaning. |
| BuildLexer.OtherLettersIgnored | src/lemon_py/BuildLexer.py:118-126 | Option letters other than `!`, `s` and `j` do not change the meaning. |
| BuildLexer.CharLiteral | src/lemon_py/BuildLexer.py:116-117 | The `'`-escaped character literal reads back as that one character and cannot close its quotes. |
| BuildLexer.DecodeStringdef | src/lemon_py/BuildLexer.py:114-128 | It raises iff the code is too short. Otherwise the `add_string_def` call carries the delimiter and escape as character literals, the token, and the flags the code decodes to. |
| BuildLexer.RuleCall | src/lemon_py/BuildLexer.py:139-153 | Building the registration call raises exactly for a skip rule without a regex or a string rule with a short code. |
| BuildLexer.ImplementLexdefLine | src/lemon_py/BuildLexer.py:136-158 | It raises exactly when building the call does. Its output starts with the six-space indent and the call, and ends with a `token_name_map.emplace` entry exactly when the rule is not a skip. |
| BuildLexer.SkipHasNoNameEntry | src/lemon_py/BuildLexer.py:141-156 | A skip rule's line never ends like a name entry. |
| BuildLexer.ImplementAll | src/lemon_py/BuildLexer.py:163 | It renders every rule in order, one line each, and fails with the first rule's exception. |
| BuildLexer.MakeLexer | src/lemon_py/BuildLexer.py:162-163 | A scan error is passed through. Otherwise the result is `LEXER_START`, the rendered rules joined by newlines, and `LEXER_END`. |
| LexDefLines.Dispatch | src/lemon_py/BuildLexer.py:80-100 | A stripped line is dispatched on its first character: `!`, `'`, or a token line. |
| LexDefLines.TokenLine | src/lemon_py/BuildLexer.py:90-100 | A line `tok` + whitespace + rest, with a plain token, is scanned as the rule after its first colon, named `tok`. |
| LexDefLines.ValueLine | src/lemon_py/BuildLexer.py:58-100 | `TOK : regex` and `TOK :: regex` read back as value rules with the Default and CaseSensitive flags and the escaped regex. |
| LexDefLines.LiteralLine | src/lemon_py/BuildLexer.py:65-97 | `TOK := text`, with no colon in the text, reads back as a literal with no terminator. |
| LexDefLines.LiteralTerminatorLine | src/lemon_py/BuildLexer.py:65-78 | `TOK := text : regex` and `TOK := text :: regex` read back as a literal with a Default or CaseSensitive terminator. |
| LexDefLines.IntroAt | src/lemon_py/BuildLexer.py:44-68 | In such a line the leftmost separator match is the one before the terminator. |
| LexDefLines.SkipLine | src/lemon_py/BuildLexer.py:84-86 | `!name : regex` reads back as a skip rule with that name and regex. |
| LexDefLines.StringLine | src/lemon_py/BuildLexer.py:87-89 | `'code := TOK` reads back as a string rule; the token comes from after the last `:=`. |
| LexDefLines.BareSkipMarkerRaises | src/lemon_py/BuildLexer.py:85-86 | `!` alone raises IndexError. |
| LexDefLines.EmptyValueRaises | src/lemon_py/BuildLexer.py:95 | `TOK :` raises IndexError. |
| LexDefLines.EmptyLiteralRaises | src/lemon_py/BuildLexer.py:66-97 | `TOK :=` raises TypeError. |
| LexDefLines.OneCharRegexRaises | src/lemon_py/BuildLexer.py:52-100 | `TOK :x` raises TypeError. |
| LexDefLines.SkipWithLiteralRaises | src/lemon_py/BuildLexer.py:55-86 | A skip rule whose regex starts with `=` raises the regex-expected RuntimeError. |
| LexDefLines.LeadingColonDropped | src/lemon_py/BuildLexer.py:91-94 | A line starting with `:` names no token and gives None. |
| LexDefLines.SingleCharDropped | src/lemon_py/BuildLexer.py:91-94 | A one-character line other than the markers gives None. |
| LexDefLines.NoColonLine | src/lemon_py/BuildLexer.py:91-100 | A stripped line of at least two characters without a colon, whose first character is not `!`, `'` or `=`, is a value rule: `find` gives -1, so its token is the line minus its last character, stripped, and its regex is the whole line. (A first `=` makes it a literal instead, and `!`/`'` lines go to the skip and string scans.) |
| LegacyBuildLexer.EntryOf | src/lemon-py/BuildLexer.py:24-25 | It raises IndexError exactly when the stripped line has no `:`. |
| LegacyBuildLexer.EntriesInOrder | src/lemon-py/BuildLexer.py:24-25 | Each block line gives its entry in order when none raises. |
| LegacyBuildLexer.EntriesError | src/lemon-py/BuildLexer.py:24-25 | The only error is IndexError, from the first line without a `:`. |
| LegacyBuildLexer.ExtractLexerDef | src/lemon-py/BuildLexer.py:19-26 | It raises "No lexer definitions found." exactly when `/*LEXDEF` is absent. Otherwise it gives the entries of the block's lines. |
| LegacyBuildLexer.EntryRoundTrip | src/lemon-py/BuildLexer.py:24-25 | A line `tok : pat`, padded with whitespace, reads back as the entry (tok, pat). |
| LegacyBuildLexer.EntryOfFields | src/lemon-py/BuildLexer.py:24-25 | A line whose first two `:` fields are `f0` and `f1` gives the entry of the stripped fields. |
| LegacyBuildLexer.ExtraFieldsDropped | src/lemon-py/BuildLexer.py:25 | Fields after the second are discarded. |
| LegacyBuildLexer.EntryLine | src/lemon-py/BuildLexer.py:28-45 | A `!` token starts an `add_skip` call. Otherwise a pattern starting with `=` starts `add_literal` and any other pattern `add_value_type`, both with the token. The quoted payload and the call's end close the line, after the six-space indent. |
| LegacyBuildLexer.ImplementLexer | src/lemon-py/BuildLexer.py:37-49 | The loop returns `LEXER_START`, the entries' lines in order, then `LEXER_END`. |
| LegacyBuildLexer.MakeLexer | src/lemon-py/BuildLexer.py:52-53 | It passes on the extraction error, or gives the implemented text of the entries. |
| LegacyBuildLexer.OneLinePerEntry | src/lemon-py/BuildLexer.py:37-49 | For entries without newlines, the body holds exactly one line per entry. |
| LegacyBuildLexer.EntryLineCount | src/lemon-py/BuildLexer.py:40-45 | An entry without newlines renders as exactly one line. |
| BuildGrammar.ModuleOf | src/lemon_py/BuildGrammar.py:97-100 | The span's second word, or `lemon_derived_parser` when it has fewer than two words; a non-empty word either way. |
| BuildGrammar.ExtractModule | src/lemon_py/BuildGrammar.py:90-100 | It never raises and always gives a non-empty word. It gives `lemon_derived_parser` when `@pymod` is absent. |
| BuildGrammar.ExtractModuleFixed | src/lemon_py/BuildGrammar.py:90-100 | The corrected extraction, whose span runs to the end of the text when no newline follows. It gives a non-empty word, and the default when `@pymod` is absent. |
| BuildGrammar.ExtractModuleAgrees | src/lemon_py/BuildGrammar.py:95-97 | When a newline follows `@pymod`, the code as written and the corrected span agree. |
| BuildGrammar.ModuleDeclared | src/lemon_py/BuildGrammar.py:90-100 | A `@pymod name` line ended by a newline names the module `name`, both as written and in the corrected extraction. |
| BuildGrammar.ModuleAtEnd | src/lemon_py/BuildGrammar.py:95-97 | With no newline after `@pymod name` and `name` of at least two characters, the code as written gives `name` without its last character, and the corrected span gives `name`. (A one-character name leaves a single word, so the as-written code gives the default `lemon_derived_parser`.) |
| BuildGrammar.LexdefSkeleton | src/lemon_py/BuildGrammar.py:102-104 | The line starts with the token and ends with ` [^\w_]`. |
| BuildGrammar.SkeletonFixed | src/lemon_py/BuildGrammar.py:102-104 | The corrected skeleton, whose padding is at least one space for every name length. It starts with the token and ends with ` [^\w_]`. |
| BuildGrammar.SkeletonAgrees | src/lemon_py/BuildGrammar.py:103-104 | For names of up to 14 characters the line as written is the padded line. |
| BuildGrammar.SkeletonFixedScans | src/lemon_py/BuildGrammar.py:102-104 | The padded skeleton line reads back through `scan_lex_line` as a literal for the token, with the lowered token as text and `[^\w_]` as its terminator. |
| BuildGrammar.LongSkeletonShape | src/lemon_py/BuildGrammar.py:103-104 | For names of 15 or more characters the separators are not padded. |
| BuildGrammar.SkeletonLosesTerminator | src/lemon_py/BuildGrammar.py:103-104 | For names of 15 or more characters the line as written reads back as a literal with no terminator, whose text includes `: [^\w_]`. |
| BuildGrammar.ConcatenateInput | src/lemon_py/BuildGrammar.py:68-79 | It raises exactly what the lexer generator raises. Otherwise the output starts with the header, `\n%include {\n` and the implementation, ends with `\n}\n` and the grammar, and holds exactly the generated lexer between them. |
| BuildGrammar.LexerInsideInclude | src/lemon_py/BuildGrammar.py:77 | The generated lexer's `LEXER_START` follows the implementation, and its `LEXER_END` precedes the closing brace of the `%include` block. |
| BuildGrammar.HeaderName | src/lemon_py/BuildGrammar.py:110 | A header line's token is its second word, and a line with fewer than two words raises IndexError. |
| BuildGrammar.HeaderNames | src/lemon_py/BuildGrammar.py:110 | One name per header line, in order, or IndexError when any line has fewer than two words. |
| BuildGrammar.Skeletons | src/lemon_py/BuildGrammar.py:110-112 | One skeleton line per name, in order. |
| BuildGrammar.LangHeader | src/lemon_py/BuildGrammar.py:107-113 | The output starts with the prologue. It stops after the prologue with IndexError iff some line has fewer than two words. Otherwise it holds the skeleton lines joined by newlines, then `@endlex`. |
| BuildGrammar.DefineLineWords | src/lemon_py/BuildGrammar.py:110 | A `#define NAME CODE` line has `NAME` as its second word. |
| Utf8.SequenceLength | src/lemon_py/utf.hpp:117-132 | The announced length is at most 4. |
| Utf8.LeadClasses | src/lemon_py/utf.hpp:117-132 | The length is 1 iff the octet is below 0x80, 2 iff it is `110xxxxx`, 3 iff `1110xxxx` and 4 iff `11110xxx`. It is 0 exactly for trail octets and octets from 0xF8 up. |
| Utf8.ValidateNext | src/lemon_py/utf.hpp:134-294 | On success the code point is valid and not overlong, and the iterator advances by exactly the announced length. On any error the iterator is restored and the code point is 0. An octet announcing length 0 gives INVALID_LEAD, and an empty range gives NOT_ENOUGH_ROOM. |
| Utf8.Append | src/lemon_py/utf.hpp:378-402 | It throws `invalid_code_point(cp)` iff cp is invalid, and otherwise writes 1, 2, 3 or 4 octets, split at 0x80, 0x800 and 0x10000. |
| Utf8.AppendLeadLength | src/lemon_py/utf.hpp:378-402 | The encoding's lead octet announces its length, and the other octets are trail octets. |
| Utf8.DecodeAppend | src/lemon_py/utf.hpp:378-402 | `validate_next` decodes what `append` encodes, whatever follows it. |
| Utf8.AppendDecoded | src/lemon_py/utf.hpp:241-294 | `append` of an accepted code point gives exactly the octets `validate_next` consumed. |
| Utf8.ValidateNextShift | src/lemon_py/utf.hpp:241-294 | `validate_next` looks only at the octets from the iterator on. |
| Utf8.Next | src/lemon_py/utf.hpp:444-462 | It succeeds iff `validate_next` does, giving its code point and position. NOT_ENOUGH_ROOM throws `not_enough_room`, the lead and sequence errors throw `invalid_utf8`, and INVALID_CODE_POINT throws `invalid_code_point`. |
| Utf8.NextAppend | src/lemon_py/utf.hpp:444-462 | `next` reads back what `append` wrote at any position. |
| Utf8.NextShift | src/lemon_py/utf.hpp:444-462 | `next` at a position behaves as `next` on the suffix from that position, with the position added to its result. |
| Utf8Api.FirstInvalid | src/lemon_py/utf.hpp:309-319 | The position is in range, and `validate_next` fails there unless it is the end. |
| Utf8Api.FindInvalid | src/lemon_py/utf.hpp:309-319 | The loop returns the position where `validate_next` first fails, or the end. |
| Utf8Api.Utf8To32 | src/lemon_py/utf.hpp:561-568 | The loop writes the code points `next` decodes one after the other, or throws `next`'s exception. |
| Utf8Api.Utf32To8 | src/lemon_py/utf.hpp:552-559 | The loop writes the encodings `append` gives one after the other, or throws for the first invalid code point. |
| Utf8Api.DecodedValid | src/lemon_py/utf.hpp:561-568 | Every code point `utf8to32` produces is valid. |
| Utf8Api.DecodeEncoded | src/lemon_py/utf.hpp:552-568 | For valid code points `utf32to8` does not throw, and `utf8to32` gives the code points back. |
| Utf8Api.EncodeDecoded | src/lemon_py/utf.hpp:552-568 | Wherever `utf8to32` does not throw, `utf32to8` gives the octets back. |
| Utf8Api.ValidIffDecodes | src/lemon_py/utf.hpp:561-568 | `is_valid` holds exactly when `utf8to32` does not throw. |
| Utf8Api.EncodingIsValid | src/lemon_py/utf.hpp:552-559 | The output of `utf32to8` for valid code points is valid UTF-8. |
| Utf8Api.Distance | src/lemon_py/utf.hpp:500-508 | The loop counts the steps `next` takes to the end, or throws `next`'s exception. |
| Utf8Api.DistanceCounts | src/lemon_py/utf.hpp:500-508 | `distance` succeeds iff `utf8to32` does, with the same exception, and then equals the number of code points decoded. |
| Utf8Api.DistanceOfEncoding | src/lemon_py/utf.hpp:500-508 | The distance across an encoding is the number of code points encoded. |
| Utf8Api.LastLead | src/lemon_py/utf.hpp:477-481 | Stepping back stops at the last octet that is not a trail octet when there is one, and otherwise every octet is a trail octet. |
| Utf8Api.Prior | src/lemon_py/utf.hpp:470-483 | It throws `not_enough_room` at the start. It steps back over trail octets, throws `invalid_utf8` when it reaches the start that way, and gives what `next` reads from there. |
| Utf8Api.PriorOfEncoding | src/lemon_py/utf.hpp:470-483 | Stepping back over an encoding gives its code point and lands at its start. |
| Utf8Api.PriorAfterNext | src/lemon_py/utf.hpp:444-483 | `prior` undoes `next`: from where `next` stopped it finds the same code point at the position `next` started from. |
| Utf8Api.StartsWithBom | src/lemon_py/utf.hpp:327-335 | It holds iff the first three octets are EF BB BF. |
| Utf8Api.BomIsFeff | src/lemon_py/utf.hpp:307 | The mark is the encoding of U+FEFF, and `next` reads it as that code point. |
| Utf8Api.TrailRun | src/lemon_py/utf.hpp:429-430 | The length of the run of trail octets at the front. |
| Utf8Api.CopyOctets | src/lemon_py/utf.hpp:412-413 | The inner loop copies the accepted sequence octet for octet. |
| Utf8Api.SkipTrails | src/lemon_py/utf.hpp:429-430 | The inner loop skips exactly the trail run. |
| Utf8Api.ReplaceOne | src/lemon_py/utf.hpp:407-432 | One turn consumes at least one octet and writes what the specification of the whole loop writes first. |
| Utf8Api.ReplaceInvalid | src/lemon_py/utf.hpp:404-435 | The loop writes what the reference definition gives. Accepted sequences are copied; an invalid lead or sequence writes one replacement and skips the following trail octets; a truncated tail writes one replacement and stops. |
| Utf8Api.ReplaceKeepsValid | src/lemon_py/utf.hpp:404-435 | Valid UTF-8 comes out unchanged, whatever the replacement. |
| Utf8Api.ReplaceOutputValid | src/lemon_py/utf.hpp:404-435 | With a valid replacement the function never throws, and its output is valid UTF-8. |
| Utf8Api.ValidConcat | src/lemon_py/utf.hpp:309-325 | Valid UTF-8 followed by valid UTF-8 is valid. |
| Utf8Api.EncodeConcat | src/lemon_py/utf.hpp:552-559 | `utf32to8` of a concatenation is the concatenation of the encodings. |
| Utf8Api.ReplaceInvalidDefault | src/lemon_py/utf.hpp:437-442 | The default replacement is U+FFFD. |
| Utf16.CombineBits | src/lemon_py/utf.hpp:520 | A lead and a trail surrogate combine, with the wrapping `SURROGATE_OFFSET`, to a supplementary code point that splits back into the same pair. |
| Utf16.SplitBits | src/lemon_py/utf.hpp:543-544 | A supplementary code point splits into a lead and a trail surrogate that combine back to it. |
| Utf16.Decode16 | src/lemon_py/utf.hpp:513-530 | One turn reads one or two units, within the input. |
| Utf16.Decode16Valid | src/lemon_py/utf.hpp:513-532 | The code point read is valid, so `append` after it never throws. |
| Utf16.Units | src/lemon_py/utf.hpp:542-547 | Two units for a code point above 0xFFFF, one otherwise. |
| Utf16.DecodeUnits | src/lemon_py/utf.hpp:513-547 | Reading back the units written for a valid code point gives the code point. |
| Utf16.UnitsDecoded | src/lemon_py/utf.hpp:513-547 | Re-encoding the code point of one decoding step gives exactly the units that step read. |
| Utf16.Utf16RoundTrip | src/lemon_py/utf.hpp:510-550 | Wherever `utf16to8` does not throw, `utf8to16` gives the units back. |
| Utf16.Utf8RoundTrip | src/lemon_py/utf.hpp:510-550 | Wherever `utf8to16` does not throw, `utf16to8` gives the octets back. |
| Utf16.Utf16OkIffWellFormed | src/lemon_py/utf.hpp:510-535 | `utf16to8` throws `invalid_utf16` exactly on input with a lone lead or trail surrogate. |
| Utf16.Utf8To16WellFormed | src/lemon_py/utf.hpp:537-550 | `utf8to16` writes no lone surrogate. |
| Utf16.ReadUnits | src/lemon_py/utf.hpp:514-530 | The start of the loop body reads the code point of one or two units. |
| Utf16.Utf16To8 | src/lemon_py/utf.hpp:510-535 | The loop writes what the reference definition gives. |
| Utf16.Utf8To16 | src/lemon_py/utf.hpp:537-550 | The loop writes what the reference definition gives. |
| StringTable.StringTable.constructor | src/lemon_py/ParserImpl.cpp:35-41 | The table starts empty. |
| StringTable.StringTable.PushString | src/lemon_py/ParserImpl.cpp:44-56 | A repeat string returns its earlier index and changes nothing. A new string gets the old size as index and is appended. Either way `getString` of the index is the string. The same code is at src/crust/Parser.cpp:4-16 and src/lemon-py/ParserImpl.cpp:86-98. |
| StringTable.StringTable.IndexesDistinct | src/lemon_py/ParserImpl.cpp:44-61 | An interned string has one index: two indexes naming equal strings are equal. |
| PrefixTree.FindChild | src/lemon_py/ParserImpl.cpp:125-130 | The first child with the given code, or none. |
| PrefixTree.FindChildAppended | src/lemon_py/ParserImpl.cpp:125-133 | A child pushed at the back is found only when no earlier child has that code. |
| PrefixTree.AddValueDistinct | src/lemon_py/ParserImpl.cpp:119-134 | `add_value` keeps the node's code, and keeps the children of every node with distinct codes. The same code is at src/crust/PrefixTree.hpp:16-31. |
| PrefixTree.AddAllDistinct | src/crust/PrefixTree.hpp:22-30 | After any sequence of `add_value` calls, no node has two children with the same code. |
| PrefixTree.AddValueGet | src/lemon_py/ParserImpl.cpp:119-134 | After `add_value(key, v)` the key maps to `v`. |
| PrefixTree.AddValueOthers | src/lemon_py/ParserImpl.cpp:119-134 | `add_value` leaves every other key's value unchanged. |
| PrefixTree.TryValue | src/lemon_py/ParserImpl.cpp:138-158 | A match ends within the input, at or after the start. |
| PrefixTree.TryChildren | src/lemon_py/ParserImpl.cpp:144-150 | A match below the children consumes at least one character. |
| PrefixTree.TryValueLongest | src/lemon_py/ParserImpl.cpp:138-158 | A result is the longest key in the tree that starts the input, with the end position after it. With no result, no key in the tree starts the input. |
| PrefixTree.CrustReturnsShorterKey | src/crust/PrefixTree.hpp:33-47 | Whatever the crust `tryValue` finds is the value of a key one character shorter than the text it compared. |
| PrefixTree.CrustMissesLiteral | src/crust/PrefixTree.hpp:33-47 | With the single key `a`, looking up `a` finds nothing. |
| Lexer.NewlinesConcat | src/lemon_py/ParserImpl.cpp:224-232 | Newlines add up over a concatenation. |
| Lexer.ScanString | src/lemon_py/ParserImpl.cpp:248-261 | A result is a delimiter of the text, at a position inside it. |
| Lexer.AsWrittenAgrees | src/lemon_py/ParserImpl.cpp:248-261 | Where the as-written scan does not read past the end, it agrees with the guarded scan. |
| Lexer.StringEndReadsPastEnd | src/lemon_py/ParserImpl.cpp:250-251 | For `ab\` the as-written scan reads past the end, and the guarded scan reports no end. |
| Lexer.ScanEscaped | src/lemon_py/ParserImpl.cpp:248-261 | For a string body escaped with `\`, the scan finds the closing delimiter right after the body. |
| Lexer.Lexer.constructor | src/lemon_py/ParserImpl.cpp:311 | The lexer starts at position 0, line 1, count 0, not at the end. |
| Lexer.Lexer.CountLines | src/lemon_py/ParserImpl.cpp:224-232 | The loop counts the newlines between the two positions. |
| Lexer.Lexer.AdvanceTo | src/lemon_py/ParserImpl.cpp:216-222 | It returns the old position, moves to the new one, and adds the newlines passed to `line`. |
| Lexer.Lexer.AdvanceBy | src/lemon_py/ParserImpl.cpp:209-214 | It returns the old position, moves by `n`, and adds the newlines passed to `line`. Throughout, `line` is 1 plus the newlines of the consumed input. |
| Lexer.Lexer.Remainder | src/lemon_py/ParserImpl.cpp:348-350 | The rest of the input from the cursor, cut to `len` characters when `len` is non-zero and the input is longer. |
| Lexer.Lexer.SkipPass | src/lemon_py/ParserImpl.cpp:238-244 | One pass over the skip patterns advances as the reference pass does, and reports whether any pattern matched. |
| Lexer.Lexer.Skip | src/lemon_py/ParserImpl.cpp:234-246 | The cursor does not move back. It ends where no skip pattern matches, and it reports exactly when the repetition would never end. |
| Lexer.Lexer.StringEnd | src/lemon_py/ParserImpl.cpp:248-261 | The loop finds the guarded scan's delimiter. |
| Lexer.Lexer.QuotedString | src/lemon_py/ParserImpl.cpp:264-271 | Nothing happens unless the token code is non-zero and the cursor is on the delimiter. With no closing delimiter it fails with UnterminatedString. Otherwise the token has the given code and the current line, its value is the raw text between the delimiters, and the cursor lands after the closing one. The string table keeps every earlier entry at its index and gains at most the new string. |
| Lexer.Lexer.NextString | src/lemon_py/ParserImpl.cpp:263-282 | A single-quoted string is tried first, then a double-quoted one; each gives the token, value and cursor of `QuotedString` for its code. There is no token exactly when neither opens at the cursor, and then nothing changes. A failure leaves the cursor and the string table unchanged; otherwise the table keeps every earlier entry and gains at most one string. |
| Lexer.Lexer.NextLiteral | src/lemon_py/ParserImpl.cpp:284-290 | With no literal starting at the cursor nothing changes. Otherwise the cursor moves past the longest literal, and the token is its code with no value. |
| Lexer.Lexer.FirstValue | src/lemon_py/ParserImpl.cpp:293-306 | The first value pattern, in definition order, that matches at the cursor. |
| Lexer.Lexer.NextValue | src/lemon_py/ParserImpl.cpp:292-308 | With no match nothing changes. Otherwise the cursor moves by the whole match, and the token takes group 1 when there are groups, else the whole match. The string table keeps every earlier entry at its index and gains at most one string. |
| Lexer.Lexer.Next | src/lemon_py/ParserImpl.cpp:313-340 | It skips first; a skip that would never end is SkipNeverEnds. When the skip reaches the end of input and the end was not yet reported, the call sets `reachedEnd` and returns the type-0 token on the current line without counting it; after that nothing changes and no token comes. Otherwise, at the skipped-to position, a string opening there gives its string token or error; else the longest literal gives its code with no value; else the first matching value pattern gives its token; else no token and the cursor stays there. Every token other than the end token adds one to `count`. The string table keeps every earlier entry at its index and gains at most one string. |
| CrustLexer.Lexer.AdvanceByCount | src/crust/PrefixTree.hpp:74-76 | It advances by exactly `count`, which must not pass the end. |
| CrustLexer.Lexer.constructor | src/crust/PrefixTree.hpp:53-72 | A lexer holds its input with the static literal tree and skip list, and its cursor is at the start of the input. |
| CrustLexer.Lexer.AdvanceByView | src/crust/PrefixTree.hpp:78-84 | It advances by the view's length or up to the end, whichever is less. |
| CrustLexer.Lexer.SkipPass | src/crust/PrefixTree.hpp:90-96 | One pass over the skip patterns advances by each match's length, as the reference pass does. |
| CrustLexer.Lexer.Skip | src/crust/PrefixTree.hpp:86-98 | The cursor does not move back. It ends where no pattern matches, and it reports exactly when the repetition would never end. |
| CrustLexer.Lexer.NextLiteral | src/crust/PrefixTree.hpp:100-103 | It always gives no token. At the end of input it reports the read past the end. |
| CrustLexer.Lexer.Next | src/crust/PrefixTree.hpp:109-120 | It never gives a token. It fails exactly when the skip never ends, or when the skip reaches the end so that `tryValue` reads past it. |
| ParseTree.PreorderSize | src/lemon_py/ParseNode.hpp:83-89 | A tree's pre-order lists each of its nodes once. |
| ParseTree.ChildSmaller | src/lemon_py/ParseNode.hpp:83-89 | Each child is no larger than all the children together. |
| ParseTree.Child | src/lemon_py/ParseNode.hpp:190-218 | It fails with the out-of-range error iff the index is at least `childCount`. Otherwise it gives that child, a smaller tree. |
| ParseTree.SameIffErased | src/lemon_py/ParseNode.hpp:220-240 | Two trees are equal exactly when they agree once lines and ids are set aside. |
| ParseTree.SameReflexive | src/lemon_py/ParseNode.hpp:227-228 | Every tree equals itself. |
| ParseTree.SameSymmetric | src/lemon_py/ParseNode.hpp:227-240 | Equality is symmetric. |
| ParseTree.SameTransitive | src/lemon_py/ParseNode.hpp:227-240 | Equality is transitive. |
| ParseTree.Equals | src/lemon_py/ParseNode.hpp:227-240 | `operator==` is the reference equality: the same child count, token name, production and value, and pairwise equal children. |
| ParseTree.NotEquals | src/lemon_py/ParseNode.hpp:242-244 | `operator!=` is its negation. |
| ParseTree.Node.constructor | src/lemon_py/ParseNode.hpp:92 | A default node has no production, token name, value or children, and line and id -1. |
| ParseTree.Node.Move | src/lemon_py/ParseNode.hpp:93-95 | The new node has every field of the old one, whose id becomes -1. |
| ParseTree.Node.MoveAssign | src/lemon_py/ParseNode.hpp:97-109 | The target takes every field of the source, whose id becomes -1. A node moved onto itself keeps its line and gets id -1. |
| Sanitize.FindFrom | src/lemon_py/ParseNode.hpp:63 | `find` gives the first occurrence at or after the position, or none. |
| Sanitize.ReplaceAllConcat | src/lemon_py/ParseNode.hpp:61-68 | Replacement distributes over concatenation. |
| Sanitize.Clean | src/lemon_py/ParseNode.hpp:61-68 | When the replacement holds no searched character after `skipForward`, the loop ends and has replaced every occurrence. |
| Sanitize.PassesSanitize | src/lemon_py/ParseNode.hpp:70-74 | Running the four passes escapes each character once. |
| Sanitize.PassesChar | src/lemon_py/ParseNode.hpp:70-74 | On one character the four passes give its entity escape. |
| Sanitize.SanitizeLabel | src/lemon_py/ParseNode.hpp:59-78 | The output is the entity-escaped input: `&amp;`, `&quot;`, `&lt;` and `&gt;`. |
| Sanitize.SanitizedSafe | src/lemon_py/ParseNode.hpp:70-74 | The output holds no `"`, `<` or `>`. |
| Sanitize.SanitizedPlain | src/lemon_py/ParseNode.hpp:72-75 | Text without the four special characters, including `'` and newlines, is unchanged. |
| Sanitize.UnsanitizeSanitized | src/lemon_py/ParseNode.hpp:70-74 | Decoding the four entities gives the input back. |
| Sanitize.NoSkipStalls | src/lemon_py/ParserImpl.cpp:468-476 | In the copy without `skipForward`, after `&` becomes `&amp;` the next search finds the same `&` again. |
| Sanitize.NoSkipStallsOnAmpersand | src/lemon_py/ParserImpl.cpp:468-476 | On `&` that copy keeps growing `&amp;amp;…` at position 0. |
| Dotify.DotOkIffLabelled | src/lemon_py/ParseNode.hpp:166-185 | `dotify` succeeds exactly when every node has a production, or both a token name and a value. |
| Dotify.DotListOkIff | src/lemon_py/ParseNode.hpp:182-184 | The children's statements succeed exactly when every child is labelled throughout. |
| Dotify.DotShape | src/lemon_py/ParseNode.hpp:166-185 | Node statements come in pre-order. Edges point at every node in pre-order except the root of the graph. |
| Dotify.DotListShape | src/lemon_py/ParseNode.hpp:182-184 | The children's node statements and edge targets both follow the children's pre-order. |
| Dotify.DotCounts | src/lemon_py/ParseNode.hpp:166-185 | One node statement per node, and one edge fewer. |
| Dotify.DotWriter.Dotify | src/lemon_py/ParseNode.hpp:166-185 | It appends the reference statements, or fails as the reference does. |
| Dotify.DotWriter.DotifyChildren | src/lemon_py/ParseNode.hpp:182-184 | The loop appends the children's statements in order. |
| Dotify.DotifyTree | src/lemon_py/ParseNode.hpp:258 | The free `dotify` gives the statements of the tree, whose root has no parent. |
| Parser.Parser.constructor | src/lemon_py/ParserImpl.cpp:395-397 | The parser starts with no nodes. |
| Parser.Parser.MakeNode | src/lemon_py/ParserImpl.cpp:404-420 | It adds a new node, at a fresh address, holding the value and the children in order. A token's node takes the token's line, any other the `line` argument. When the children exist, any rank of the old nodes extended by a rank above the children's orders the new nodes. |
| Parser.Parser.DropNode | src/lemon_py/ParserImpl.cpp:426-431 | The node is removed if present, and nothing else changes. An unreferenced node's removal keeps any rank. |
| Parser.Parser.PushBack | src/lemon_py/ParserImpl.cpp:377-379 | `push_back`/`pb` appends the child to the parent's children, whatever their addresses, and returns the parent. When the parent does not lie below the child, the raised rank orders the new nodes. |
| Parser.Parser.SetLine | src/lemon_py/ParserImpl.cpp:381 | `l` sets the node's line and returns it; the children, and so any rank, are unchanged. |
| Parser.PushBackRanked | src/lemon_py/ParserImpl.cpp:377 | Appending a child that does not reach the parent leaves the nodes acyclic: the parent and every node above it are raised above the child. |
| Parser.ReachesRankBelow | src/lemon_py/ParserImpl.cpp:377 | A node reachable before `push_back` is still reachable after it, so it ranks no higher. |
| Parser.PushBackCycle | src/lemon_py/ParserImpl.cpp:377 | Appending a child that reaches the parent makes a cycle: no rank orders the new nodes. |
| Parser.ListIdiomAcyclic | src/lemon_py/ParserImpl.cpp:379 | A list node whose child was made after it, as `L = L1->pb(E)` builds, is acyclic. |
| Parser.RangeConcat | src/lemon_py/ParserImpl.cpp:576 | Consecutive ranges of ids join. |
| Parser.UpliftNumbers | src/lemon_py/ParserImpl.cpp:574-595 | The copy numbers its nodes `counter`, `counter+1`, … in pre-order and ends with the counter at `counter + size`. It keeps the line, the child count and the label kind: token nodes get a token name and a value, others a production. |
| Parser.UpliftChildrenNumbers | src/lemon_py/ParserImpl.cpp:590-592 | The children's copies are numbered consecutively in order. |
| Parser.UpliftChildOrder | src/lemon_py/ParserImpl.cpp:590-592 | The k-th child of the copy is a copy of the k-th child. |
| Parser.UpliftNode | src/lemon_py/ParserImpl.cpp:574-595 | For any acyclic nodes, including children newer than their parent as `pb` attaches them, the recursive method with its loop gives the reference copy and counter. |
| Parser.UpliftRoot | src/lemon_py/ParserImpl.cpp:597-600 | The ids of the copy are 0, 1, …, in pre-order. |
| Parser.FinishParse | src/lemon_py/ParserImpl.cpp:611-621 | Input left over fails with the line and the remainder. Without a root the result is a default node. With one, the result is `Uplift` of the root with the counter at 0, so its ids are 0, 1, … in pre-order and it has the root's line. |
| PrototypeParser.TokenValue | src/lemon-py/ParserImpl.cpp:53 | In a valid table, the string at the token's index is interned at that index. |
| PrototypeParser.Parser.MakeNode | src/crust/Parser.cpp:23-33 | The node list grows by exactly one node, holding the value, the `line` argument and the children in order. The returned node is that last one, and the list stays closed when the children exist. The same code is at src/lemon-py/ParserImpl.cpp:105-115. |
| PrototypeParser.ParseString | src/lemon-py/ParserImpl.cpp:157-159 | The stub gives a value-initialised node: no production, no value, no children, line 0. |

## Left out

- I/O, processes and the environment are not modelled: `gpp_command`, `read_grammar_source`, `write_and_build_curdir`, `build_grammar`, the command line, and both `Driver.py` files. The file texts that `concatenate_input` and `print_lang_header` read are parameters, and `print` becomes the returned text.
- The regex engine is not modelled: `std::regex` construction, the `icase` flag and matching. The lexer takes a matcher function (anchored, for `match_continuous`) and the crust lexer a searcher; both return lengths within the input. How lemon-py's escaping survives the C++ compiler is covered by `BuildLexer.Unescape`, and nothing beyond it.
- The lemon-generated parser (`LemonPyParse*`) and `offerToken` are not modelled. Nor is the token loop of `parse_string`, which is driven by generated code; `Parser.FinishParse` covers what follows the loop.
- `error`, `success`, `push_root` and `mn` are not modelled. `mn` is `make_node` under another name, `push_root` stores the root that `Parser.FinishParse` takes as a parameter, and `error`/`success` belong to the generated parser.
- The prototype node's `push_back` (src/lemon-py/ParserImpl.cpp:69) is not modelled. Nothing in the prototype reads the children back, so `PrototypeParser.Parser.Closed` only records the order that `make_node` alone keeps.
- Parser.UpliftNode: the nodes must be acyclic and every child must be a live node. A cycle, which `pb` can make (`Parser.PushBackCycle`), makes `uplift_node` recurse until the stack overflows; a dropped child is a dangling pointer. Neither is modelled.
- Dotify.DotifyTree: src/lemon_py/ParserImpl.cpp does not include src/lemon_py/ParseNode.hpp. It defines its own `ParseNode`, `dotify` and `sanitize` (src/lemon_py/ParserImpl.cpp:466-572), and that `sanitize` also rewrites `'` to `&apos;` and never ends on input holding `&`. The model follows the declaration in the header and labels with the header's `sanitize`, so a label `a'b` stays `a'b` where that copy would write `a&apos;b`.
- BuildGrammar.LexdefSkeleton: `t.lower()` is modelled as ASCII lowering (`PyStr.Lower`). The names come from `#define` lines of lemon's header, which are C identifiers; the Unicode case mapping of Python's `lower` is not modelled.
- pybind11 bindings (`string_or_none`, `asDict`, `PYBIND11_MODULE`) and the Python attribute dictionary `attr` are not modelled.
- `snprintf` formatting is not modelled: `toString`, the 1024-byte buffers and the DOT header text. DOT statements are structured values.
- The generated `_init_lexer` and the static rule tables are modelled as the lexer's `Rules` value. `token_name_map` and the empty entry its `operator[]` inserts for a missing type are not: `Parser.TokenName` gives the empty string without the insertion.
- `add_string_def` does not exist in the runtime shown, so `nextString` reads its two token codes from `Rules`.
- PrefixTree.AddValue: `add_value`, which updates `children` in place, is modelled as a function that returns the new tree. Aliasing of the vector is not captured.
- Pointers become addresses in a map, and the parser never reuses an address. Freed memory and dangling pointers are not modelled, and a dropped node still named as a child makes the nodes not `Ranked`.
- The 32-bit `int` of `line`, `count` and the id counter is unbounded in the model, so overflow past 2^31 lines or tokens is not modelled.
- Lexer.Lexer.AdvanceBy: `std::advance` past the end is undefined behaviour, so `n` is required to stay within the input rather than modelled.
- CrustLexer.Lexer.NextLiteral: the crust `tryValue` returns a reference to a temporary `std::nullopt`, which dangles. The model does not track this; it keeps only the read past the end, and the result is unused anyway.
- CrustLexer.Lexer.constructor: the crust `Lexer` declares no constructor and never sets `curPos`. The model starts the cursor at 0 instead of leaving it indeterminate.
- CrustLexer.Lexer.Next: the crust `nextValue` always returns nothing and is folded into `Next`.
- ParseTree.Node.Move: the moved-from production, token name, value and children are left unspecified, as the standard leaves them.
- ParseTree.Node.MoveAssign: a self-move leaves the production, token name, value and children unspecified; only the line and the id -1 are stated.
- The `utf8::iterator` class, `advance` and `peek_next` are not modelled. They are thin wrappers over `next` and `prior`; `Utf8Api.Prior` traces `peek_next` as its last step.
- The `std::string` overloads of the UTF functions are not modelled separately. They call the iterator versions on a whole string, which is what the model's sequence arguments are.
- `mask8`/`mask16` on wider input types are not modelled beyond their effect: octets are `bv8`, and UTF-16 units are 32-bit values below 2^16.
- src/crust/Parser.hpp and src/crust/ParseTree.hpp are not part of this model. They hold only declarations; `Token::value` there has no body.
- src/lemon-py/BuildGrammar.py is not part of this model; it runs processes only.

## Findings

| source | as written | input that shows it | evidently intended | confidence | as-written member | corrected member |
|---|---|---|---|---|---|---|
| src/lemon_py/BuildGrammar.py:95-97 | When no newline follows `@pymod`, `find` gives -1 and the slice drops the text's last character. | `"@pymod foo"` names the module `fo` | the span runs to the end of the text | not executed | BuildGrammar.ModuleAtEnd | BuildGrammar.ExtractModuleFixed |
| src/lemon_py/BuildGrammar.py:103-104 | For a token of 15 or more characters the width `16 - len` is at most 1, so nothing pads the second `:`. The line then reads back as a literal with no terminator; `: [^\w_]` becomes part of the literal text. | any plain token of 15 characters, such as `ABCDEFGHIJKLMNO` | separators at least one space wide, so the terminator survives | not executed | BuildGrammar.SkeletonLosesTerminator | BuildGrammar.SkeletonFixedScans |
| src/crust/PrefixTree.hpp:33-47 | `tryValue` compares the last character with the node's own code instead of a child's, so it finds the value of a key one character shorter. It also dereferences `first` at the end of input. | tree with key `a`; `tryValue("a")` finds nothing | return the value at the end of the longest key that starts the input | not executed | PrefixTree.CrustMissesLiteral | PrefixTree.TryValueLongest |
| src/lemon_py/ParserImpl.cpp:250-251 | A `\` as the last character makes the loop read one past the end. | string body `ab\` with no closing quote | check for the end before looking past a `\` | not executed | Lexer.StringEndReadsPastEnd | Lexer.Lexer.StringEnd |
| src/lemon_py/ParserImpl.cpp:468-476 | The `clean` of this `sanitize` copy never advances past the `&` it inserts, so it never ends on input holding `&`. | `"&"` | skip past the inserted `&`, as src/lemon_py/ParseNode.hpp:61-70 does; the corrected member is the header's `sanitize`, which also has no `&apos;` pass | not executed | Sanitize.NoSkipStallsOnAmpersand | Sanitize.SanitizeLabel |
