# Telegram Login Widget credential check, in Dafny

This project models `tgverifier.go`, a Go package that checks the credentials a
Telegram Login Widget hands to a web site. The package has two parts:

- `Credentials.String` builds the *data-check-string*. It starts with
  `auth_date=<n>`, then has `first_name`, `id`, `last_name`, `photo_url` and
  `username` lines in that order. `id` is always there. Each other line is there
  only when its value is non-empty. Lines are `key=value`, joined by single `\n`,
  and `hash` is never included. Values are copied without escaping, so a value
  that holds `\n` breaks this layout: it can imitate another line
  (`CheckStringAmbiguous`). The string also ends with `\n` exactly when the value
  on its last line does, and that line is `last_name`, `photo_url` or `username`
  (`CheckStringEndsWithNewline`).
- `Credentials.Verify` takes the SHA-256 of the bot token as the key, computes
  the HMAC-SHA-256 of the data-check-string, and hex-encodes it in lowercase.
  It returns `nil` when that equals `Hash` and `ErrInvalidCreds` otherwise.

The model has six modules:

- `Wrappers`: `Option`.
- `GoTypes`: `byte` and the 64-bit `int`.
- `Decimal`: `fmt`'s `%d`, with an inverse parser.
- `Hex`: `encoding/hex` lowercase encoding (RFC 4648 section 8), with an inverse decoder.
- `Text`: joining lines with `\n` and splitting them again.
- `TgVerifier`: the package itself.

`CheckString` specifies the data-check-string as a table of signed fields. The
table is filtered to its non-empty entries, rendered as `key=value` and joined.
The method `String` follows the Go code: one local string, extended by
conditional appends. It is proved to return `CheckString`. `Verify` is a method
that calls `String`, as the Go method does.

SHA-256 and `computeHmac256` are the two fields of a `Hashes` value passed to
`Verify`. They are arbitrary functions whose results are 32 bytes, so every
property proved here holds whatever they compute. The model does not rely on
any property of the cryptography.

## Model

| member | source | states |
|---|---|---|
| `Decimal.NatDigits` | tgverifier.go:48 | the decimal digits of a natural number are non-empty, all `0`-`9`, with no leading zero, and start with `0` only for zero |
| `Decimal.FormatInt` | tgverifier.go:48 | `%d` output is non-empty, starts with `-` exactly for negative values, and is otherwise digits |
| `Decimal.FormatIntRoundTrip` | tgverifier.go:48 | every integer is read back from its `%d` rendering, so distinct `auth_date`/`id` values render differently |
| `Decimal.ParseIntCanonical` | tgverifier.go:56-58 | every string the parser accepts is exactly the `%d` rendering of the value it reads |
| `Decimal.FormatIntHasNoNewline` | tgverifier.go:48 | a rendered integer never contains `\n`, so it cannot break a line |
| `Hex.HexEncode` | tgverifier.go:36 | the encoding has two characters per byte, all from `0-9a-f` |
| `Hex.HexRoundTrip` | tgverifier.go:36 | decoding the encoding of any bytes gives those bytes back |
| `Hex.HexDecodeCanonical` | tgverifier.go:36 | any string that decodes is the encoding of what it decodes to, so no two strings decode to the same bytes |
| `Hex.HexDecodeTotal` | tgverifier.go:36 | a string decodes exactly when it is lowercase hex of even length; with the two lemmas above, the encoding maps byte sequences one-to-one onto those strings |
| `Text.SplitJoin` | tgverifier.go:47-79 | splitting lines joined by single `\n` gives the lines back when none holds a `\n` |
| `TgVerifier.Present` | tgverifier.go:50-76 | an entry is kept exactly when it is in the table and its value is non-empty |
| `TgVerifier.String` | tgverifier.go:47-79 | the string built by the conditional appends is the data-check-string `CheckString` |
| `TgVerifier.CheckStringLayout` | tgverifier.go:48-76 | the data-check-string is the `auth_date` line, the optional `first_name` line, the `id` line and the optional `last_name`, `photo_url` and `username` lines, each later line led by one `\n`, with values copied verbatim |
| `TgVerifier.FieldTableAscending` | tgverifier.go:47-79 | the field table is in strictly alphabetical key order and has no `hash` key |
| `TgVerifier.SignedFieldsAscending` | tgverifier.go:48-76 | the lines of the data-check-string are in strictly alphabetical key order |
| `TgVerifier.SignedFieldsContents` | tgverifier.go:48-76 | `auth_date` and `id` are always signed with their decimal values; each optional field is signed, verbatim, exactly when it is non-empty; `hash` never is |
| `TgVerifier.CheckStringStartsWithAuthDate` | tgverifier.go:48-58 | the string starts with `auth_date=` and the decimal `AuthDate`, and a `\n` always follows that line |
| `TgVerifier.CheckStringIgnoresHash` | tgverifier.go:45-79 | two credentials that differ only in `Hash` have the same data-check-string |
| `TgVerifier.CheckStringExample` | tgverifier.go:47-79 | id 12345, first name `Ann`, auth date 1700000000 give `auth_date=1700000000\nfirst_name=Ann\nid=12345` |
| `TgVerifier.CheckStringAmbiguous` | tgverifier.go:60-69 | because values are not escaped, moving the `photo_url` line into the end of `last_name` gives different credentials with the same data-check-string |
| `TgVerifier.CheckStringRoundTrip` | tgverifier.go:47-79 | when no optional value holds `\n`, parsing the data-check-string gives back every field except `Hash` |
| `TgVerifier.CheckStringEndsWithNewline` | tgverifier.go:48-78 | the string ends with `\n` exactly when the last non-empty value among `username`, `photo_url` and `last_name` (in that order of precedence) ends with `\n`; the `id` line, when last, never does |
| `TgVerifier.CheckStringNoTrailingNewline` | tgverifier.go:48-78 | when none of `last_name`, `photo_url` and `username` holds `\n`, the string does not end with `\n`, whatever `first_name` holds |
| `TgVerifier.CheckStringTrailingNewline` | tgverifier.go:72-78 | a `username` ending in `\n` is copied verbatim, so the string then ends with `\n` |
| `TgVerifier.SignedLinesParse` | tgverifier.go:47-79 | under the same condition, splitting the string into lines and each line at its first `=` gives back the signed fields in order |
| `TgVerifier.ExpectedHash` | tgverifier.go:31-36 | the expected hash is 64 lowercase hex characters and decodes to the HMAC of the data-check-string keyed with the SHA-256 of the token |
| `TgVerifier.Verify` | tgverifier.go:30-43 | returns `nil` exactly when `Hash` equals the expected hash, and `ErrInvalidCreds` otherwise; any `Hash` that is not 64 lowercase hex characters is refused |
| `TgVerifier.ExpectedHashIgnoresHash` | tgverifier.go:31-36 | the expected hash does not depend on the supplied `Hash` |
| `TgVerifier.OtherHashRejected` | tgverifier.go:38-40 | if credentials verify, the same fields with any other `Hash` fail, including a truncated hash or one with one character changed |
| `TgVerifier.TamperedCredentialsNeedCollision` | tgverifier.go:30-43 | two credentials that differ in a signed field, with no `\n` in either's optional values, have different data-check-strings; if the second verifies with the first's genuine hash, the HMAC gives both strings the same MAC, so tampering passes only through a MAC collision |
| `TgVerifier.SplicedCredentialsAccepted` | tgverifier.go:30-43 | the spliced credentials of `CheckStringAmbiguous` differ from the original ones yet have the same expected hash, so whenever the original credentials verify, the spliced ones verify with the same hash |

## Left out

- SHA-256 and HMAC internals (`crypto/sha256`, `crypto/hmac`, tgverifier.go:31 and 81-85) are foreign library code. They are the abstract `Hashes.Sum256` and `Hashes.ComputeHmac256`, with only their 32-byte result length known. The `hmac.New`/`Write`/`Sum` sequence inside `computeHmac256` is therefore not modelled.
- Go strings are modelled as `seq<char>`. The `[]byte(checkString)` conversion at tgverifier.go:35 is folded into `ComputeHmac256`, which takes the string itself.
- Timing is not modelled. The comparison at tgverifier.go:38 is Go's ordinary `!=`, not a constant-time compare, so the model claims nothing about timing. The usual advice for this check is a constant-time comparison, but the model follows the code.
- `Verify`: the model does not prove outright that changing a signed field makes verification fail. That needs collision resistance of the HMAC, which an abstract function does not have. It proves only the reduction (`TamperedCredentialsNeedCollision`): when no optional value holds `\n`, a tampered credential that passes with the genuine hash exhibits an HMAC collision. `SplicedCredentialsAccepted` covers the `\n` case: changes that keep the data-check-string the same keep the verdict.
- Go's `int` is modelled as 64 bits wide (a 64-bit platform).
- The JSON struct tags (tgverifier.go:18-24) are transport plumbing and are not modelled.
- Only `%d` (decimal) and `%s` (verbatim insertion) of `fmt.Sprintf` are modelled.
- An unset optional field and an empty one are the same value in Go (the zero value `""`), so the model cannot tell them apart either. Both leave no line.
- `String`, `Verify`: the Go methods take a pointer receiver `*Credentials` (tgverifier.go:30, 47). The model takes a non-nil `Credentials` value instead. The panic a nil receiver causes when `String` reads `c.AuthDate` (tgverifier.go:48) is not modelled. Neither is another goroutine writing the struct while it is read. Neither method writes to its receiver, so "fields unchanged" holds by construction and is not stated separately.
- `auth_date` freshness is not checked, as in the source.
- `ParseCheckString`, `HexDecode` and `ParseInt` are inverses written to state round trips. The Go package has no such functions.
