# kcl `produce`: delimiter compilation, input splitting, record pairing, key=value parsing

This project is a Dafny model of the input side of kcl's `produce TOPIC` command and of its
`key=value` argument parser.

- **Delimiter compilation** (`Delim`, `parseDelim`). A delimiter specification such as
  `\n`, `\t`, `\x2c` or a plain byte string is compiled into the byte sequence that separates
  records. The hex escape goes through a model of `strconv.ParseInt(hex, 16, 8)` followed by
  Go's conversion `byte(n)`. Every way compilation can fail is an error value, not a process
  exit.
- **Splitting** (`Scan`, `splitDelimFn`). The split function is handed to `bufio.Scanner`.
  `Tokenize` applies it to the whole input. `Stream` replays the scanner's read loop over input
  that arrives in arbitrary chunks, and is proved to give the same tokens for every chunking.
- **Record pairing** (`Produce`, the `Run` closure). The keyed-record delimiter overrides the
  record delimiter. Tokens become value-only records, or key/value records when a keyed-record
  delimiter is set. A key without a following value ends the run with "missing final value
  delim". `ProduceRecords` is the list of records the loop submits, in order, once the key and
  value copies are corrected (see "## Findings"); `ProduceRecordsAsWritten` is the list the loop
  as written submits, each key and value behind as many zero bytes as it holds.
- **Key/value parsing** (`KeyValues`, `parseKVs` in main.go). Each argument is trimmed with
  `strings.TrimSpace`. It must then hold exactly one `=` with non-empty trimmed text on both
  sides. The first bad argument ends parsing with its error.

`Seqs` holds the sequence vocabulary: `bytes.Index`, counting, joining and flattening. `Wrappers`
holds `Option` and `Result`.

Three behaviours of the code worth knowing, all modelled as written:

- An input that ends exactly on a delimiter gives no trailing empty token: `a,b,` split on `,`
  gives `a`, `b` (`Scan.ExampleTrailingDelimiter`). The split returns the remainder only when it
  is non-empty at end of input.
- The split advances one byte past the token, not past the whole delimiter. With a multi-byte
  delimiter, the delimiter's later bytes start the next token (`Scan.ExampleMultiByteLeftover`).
- An empty delimiter, from `--delim ""`, compiles to no bytes. `bytes.Index` finds it at offset 0
  everywhere, so every input byte yields one empty token (`Scan.EmptyDelimiter`), and the run
  submits one empty record per input byte.

The hex escape accepts what `strconv.ParseInt(…, 16, 8)` accepts, sign included. So `\x-1` is the
byte 0xFF and `\x80` is refused. This is kept as written.

## Model

| member | source | states |
|---|---|---|
| Seqs.Index | produce.go:162 | `bytes.Index`: -1 exactly when the pattern does not occur; otherwise the offset of its leftmost occurrence (an empty pattern occurs at 0) |
| Delim.ParseInt8Hex | produce.go:143-145 | an accepted hex pair denotes a value in the signed 8-bit range -128..127 |
| Delim.PairAccepted | produce.go:143-145 | a two-byte pair is accepted exactly when it is two hex digits worth less than 0x80 or a sign followed by one hex digit; any other first byte is refused |
| Delim.ToByte | produce.go:146 | `byte(n)` keeps 0..255 unchanged and maps -256..-1 to n + 256 (two's complement) |
| Delim.DecodeUnit | produce.go:123-151 | one loop iteration consumes 1 to all remaining bytes; exactly one byte iff the piece is not a backslash escape; only an escape can fail |
| Delim.ParseDelim | produce.go:120-155 | a compiled delimiter is never longer than its specification, and is empty only for the empty specification |
| Delim.LiteralSpec | produce.go:126-127 | a specification without a backslash compiles to itself |
| Delim.TrailingBackslashFails | produce.go:128-131 | every specification whose last byte is a backslash fails to compile |
| Delim.ControlEscapes | produce.go:132-138 | `\t`, `\n`, `\r` emit 0x09, 0x0A, 0x0D and compilation continues after the two bytes |
| Delim.HexEscape | produce.go:139-147 | `\x` with fewer than two bytes after it is ShortHex; an unparsable pair is BadHex carrying the pair; otherwise `byte(n)` is emitted and compilation continues after four bytes |
| Delim.UnknownEscapeFails | produce.go:148-149 | a backslash before any byte other than t, n, r, x fails with that byte |
| Delim.TwoDigitPair | produce.go:144 | two hex digits are accepted exactly when their value is below 0x80, and then denote that value |
| Delim.SignedPair | produce.go:144 | `-d` denotes minus the digit and `+d` the digit itself |
| Delim.ParsedEndsInDigit | produce.go:144 | every accepted pair ends in a hex digit |
| Delim.ParseDelimAppend | produce.go:122-153 | when the first part compiles on its own, compiling a concatenation compiles the parts one after the other, and an error in the second part is the error of the whole |
| Delim.EscapeRoundTrip | produce.go:120-155 | every byte sequence is the compilation of its escaped form (backslash written `\x5c`) |
| Delim.ExampleHexByte | produce.go:139-147 | `\x41` compiles to 0x41 |
| Delim.ExampleHexTooLarge | produce.go:139-147 | `\x80` is refused as BadHex |
| Delim.ExampleHexShort | produce.go:140-142 | `\x4` at the end is refused as ShortHex |
| Delim.ExampleHexNegative | produce.go:143-146 | `\x-1` compiles to 0xFF |
| Scan.SplitDelim | produce.go:157-169 | no token on empty input at EOF; at the leftmost match the token is the bytes before it and the advance is one past its start; at EOF without a match the whole rest is the token; otherwise more input is requested; a token always advances within the data, except for an empty delimiter on empty data before end of input, which the scanner never passes |
| Scan.SplitExtend | produce.go:162-163 | a token found in a prefix before end of input is found unchanged in every extension, at end of input or not |
| Scan.Tokenize | produce.go:159-166 | no tokens exactly for empty input, and never more tokens than bytes |
| Scan.NoDelimiterOneToken | produce.go:165-166 | non-empty input without the delimiter is a single token |
| Scan.TokensAvoidDelimiter | produce.go:162-163 | no token contains a non-empty delimiter |
| Scan.TokenizeAtDelimiter | produce.go:162-163 | at the leftmost match the tokens are the bytes before it followed by the tokens of the input past its first byte |
| Scan.TokenizeRebuild | produce.go:157-169 | joining the tokens with the delimiter's first byte, plus a final single-byte delimiter if one ends the input, gives back the input |
| Scan.EmptyDelimiter | produce.go:162-163 | with an empty delimiter every input byte yields one empty token |
| Scan.Stream | produce.go:75-80 | `bufio.Scanner`'s loop: split what is held, read the next chunk when the split asks for more; never more tokens than input bytes |
| Scan.StreamAtEnd | produce.go:80 | once input is exhausted the scanner's loop yields the tokens of what it holds |
| Scan.StreamMatchesTokenize | produce.go:75-80 | for every way the input arrives in reads, the scanner yields the tokens of the whole input |
| Scan.OneByteToken | produce.go:162-163 | a non-delimiter byte followed by a single-byte delimiter is a token of its own |
| Scan.LeadingDelimiter | produce.go:162-163 | a delimiter at the front yields an empty token |
| Scan.ExampleEmptyField | produce.go:157-169 | `x,y,,z` gives `x`, `y`, empty, `z` |
| Scan.ExampleThreeFields | produce.go:157-169 | `x,y,z` gives `x`, `y`, `z` |
| Scan.ExampleTrailingDelimiter | produce.go:157-169 | `x,y,` gives `x`, `y` and no trailing empty token |
| Scan.ExampleUnterminated | produce.go:165-166 | `xyz` without the delimiter is one token |
| Scan.ExampleMultiByteLeftover | produce.go:163 | `xaby` split on `ab` gives `x` and `by` |
| Produce.PairRecords | produce.go:80-90 | fails, with the missing-value error, exactly when keyed with an odd number of tokens; keyed, record j is key token 2j and value token 2j+1; unkeyed, one value-only record per token, in order |
| Produce.PairRecordsRoundTrip | produce.go:80-90 | reading the records back, key then value, gives exactly the tokens they were made from, in order |
| Produce.CopyAsWritten | produce.go:85 | the copy as written has twice the length: zero bytes, then the original bytes |
| Produce.PairRecordsAsWritten | produce.go:84-90 | the loop as written: same pairing and failure, but every key and value is its token behind as many zero bytes |
| Produce.AsWrittenEmptyTokens | produce.go:90 | with only empty tokens the loop as written submits what the tokens hold |
| Produce.AsWrittenNonEmptyToken | produce.go:90 | any non-empty token makes the loop as written submit something else |
| Produce.AsWrittenDiffers | produce.go:85-90 | the loop as written agrees with the intended pairing iff every token is empty |
| Produce.AsWrittenExample | produce.go:90 | the token `A` becomes the value 0x00 0x41 as written, and 0x41 as intended |
| Produce.ProduceRecords | produce.go:52-90 | with the copies corrected: a bad delimiter ends the run with its error; every record goes to the topic; records carry a key exactly when a keyed-record delimiter is set; the run fails for want of a value exactly when keyed with an odd token count |
| Produce.ProduceRecordsAsWritten | produce.go:52-90 | the run as written fails exactly when the corrected run does, with the same error, and otherwise submits the corrected records with each key and value behind as many zero bytes |
| Produce.PairRecordsCopy | produce.go:84-90 | the loop as written submits, record for record, the zero-prefixed copies of what the corrected loop submits |
| Produce.KeyedTwoPerRecord | produce.go:84-90 | keyed, an even token count gives one record per pair, key token 2j and value token 2j+1, in order; an odd count ends the run for want of a final value |
| Produce.KeyDelimOverrides | produce.go:53-55 | with a keyed-record delimiter set, the record delimiter makes no difference |
| Produce.UnkeyedOnePerToken | produce.go:80-90 | unkeyed, the run succeeds with one value-only record per token, in order |
| Produce.ExampleLines | produce.go:111 | with the default newline delimiter, `x\ny\n` gives the records `x` and `y` |
| Produce.ExampleDanglingKey | produce.go:84-88 | keyed on `,`, `x,y,z` fails for want of a value after `z` |
| KeyValues.IsSpace | main.go:71 | `unicode.IsSpace`: in Latin-1 exactly tab, newline, vertical tab, form feed, carriage return, space, U+0085 and U+00A0; from U+0100 to U+1FFF only U+1680 |
| KeyValues.TrimLeft | main.go:71 | the result is a suffix of the input, what it drops is all white space, and it does not start with white space |
| KeyValues.TrimRight | main.go:71 | the result is a prefix of the input, what it drops is all white space, and it does not end with white space |
| KeyValues.TrimSpace | main.go:71 | the result is empty iff the input is all white space, and otherwise starts and ends with a non-space |
| KeyValues.TrimLeftExact | main.go:71 | leading white space is exactly what is removed from the front |
| KeyValues.TrimRightExact | main.go:71 | trailing white space is exactly what is removed from the back |
| KeyValues.TrimSpaceExact | main.go:71 | any white space around a text that starts and ends with a non-space is removed, and nothing else |
| KeyValues.TrimSpaceIdempotent | main.go:79 | trimming an already trimmed text changes nothing |
| KeyValues.SplitOn | main.go:75 | one more piece than separators, no piece contains the separator, and joining the pieces with it gives back the text |
| KeyValues.SplitOnNone | main.go:75 | text without the separator is one piece |
| KeyValues.SplitOnFirst | main.go:75 | the text before the first separator is the first piece, and the rest is split on |
| KeyValues.SplitOnOne | main.go:75-76 | a text with one separator gives exactly the two sides |
| KeyValues.SplitOnTwo | main.go:75-76 | two pieces are the text before and after a separator |
| KeyValues.ParsePair | main.go:70-83 | the error carries the trimmed pair; MissingEquals exactly when the trimmed pair has no `=`; TooManyEquals exactly when it has two or more; an accepted key and value are non-empty and contain no `=` |
| KeyValues.ParsePairEmptySide | main.go:79-82 | a single `=` with only white space on one side is refused as EmptyKeyOrValue |
| KeyValues.TrimmedSubsequence | main.go:79 | trimming adds no character |
| KeyValues.ParsedDenotes | main.go:70-83 | what is accepted has exactly one `=` after trimming, and the key and value are the trimmed sides |
| KeyValues.DenotesParsed | main.go:70-83 | every well-formed pair is accepted with its trimmed sides |
| KeyValues.ParsePairDenotes | main.go:70-83 | a pair is accepted with a given key and value iff it is well formed and those are its trimmed sides |
| KeyValues.ParseEach | main.go:68-86 | succeeds iff every item parses, then with each item's result in order; otherwise fails with the error of the first item that does not parse |
| KeyValues.ParseKVs | main.go:68-86 | every pair parsed, in order, or the error of the first malformed pair |
| KeyValues.ParseKVsDenote | main.go:68-86 | on success each returned key/value is what its argument stands for |

## Left out

- The Kafka client: `client().Produce`, its callback, `maybeDie` on produce errors and the compression switch. These are calls into code outside this model. The model ends at the list of records the loop submits.
- The `sync.WaitGroup` and the `--verbose` printing. Both are concurrency and output with no effect on which records are built.
- `bufio.Scanner`'s buffer limit (`--max-read-buf`), `ErrTooLong` and the final `scanner.Err()` check. `Stream` reads without a size limit, and reading never fails.
- Cobra's command and flag plumbing, and the default delimiter value. The flags are parameters of `Produce.ProduceRecords`.
- `die` and `os.Exit` become error values. Messages and their formatting are not modelled.
- Produce.ProduceRecords: records submitted before a missing final value ends the run are not part of the error result.
- Produce.ProduceRecordsAsWritten: likewise, records submitted before a missing final value ends the run are not part of the error result.
- Delim.ParseInt8Hex: the syntax and range errors of `strconv.ParseInt` are merged into one `None`, because the caller reports them alike.
- KeyValues.TrimSpace: works on Unicode code points. Invalid UTF-8 in the arguments, which Go would decode as U+FFFD, is not modelled.

## Findings

| source | as written | input that shows it | evidently intended | confidence | as-written member | corrected member |
|---|---|---|---|---|---|---|
| produce.go:85-90 | `append(make([]byte, len(b)), b...)` makes `len(b)` zero bytes and appends `b` after them | the unkeyed token `A` is submitted as the value 0x00 0x41 | a copy of the token, `append(make([]byte, 0, len(b)), b...)`, giving the value 0x41 | high, not executed | Produce.PairRecordsAsWritten, Produce.ProduceRecordsAsWritten, Produce.AsWrittenExample | Produce.PairRecords, Produce.ProduceRecords |
