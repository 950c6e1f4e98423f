# A verified model of FSNotes' `URL` extension

FSNotes extends Foundation's `URL` with a small set of helpers in
`FSNotesCore/Shared/Extensions/URL+.swift`:

- extended-attribute (xattr) access: get, set, remove and list;
- the POSIX error those four throw;
- three URL string helpers: the `queryParam` subscript, `isRemote` and `removingFragment`;
- the `fileSize` accessor over the file's attributes.

This project models that logic in Dafny and proves what it does. The model has
five modules:

- `Wrappers` (`wrappers.dfy`): `Option`, `Result` and `Outcome`. They stand for
  Swift optionals and `throws`.
- `Utf8` (`utf8.dfy`): UTF-8 as section 4 of RFC 3629 defines it. It holds one
  predicate per grammar rule, a decoder to Unicode scalar values, the encoder
  (defined by the property that fixes it: each value's one well-formed char),
  and both round trips. The decoder stands for `String(data:encoding: .utf8)`.
- `XattrList` (`xattr_list.dfy`): how `listExtendedAttributes` decodes the
  `listxattr` buffer. The buffer is split on NUL the way
  `split(separator: 0)` splits, with empty pieces omitted. Each piece is then
  decoded, and pieces that are not UTF-8 are dropped, as `compactMap` drops
  them.
- `Xattr` (`xattr.dfy`): the two-phase get and list, written as methods that
  allocate a zero-filled `array` buffer and have the second call fill it. It
  also holds set, remove and `posixError`.
- `UrlHelpers` (`url_helpers.dfy`): the query subscript, `isRemote`,
  `removingFragment` (a method that reassigns its string step by step),
  `attributes` and `fileSize`.

System calls are not modelled, only their results. Each call is a
`SysCall(ret, errno)` value: what it returned and the `errno` it left behind.
The octets the filling `getxattr`/`listxattr` call stores are a further input,
`written`. The Foundation parsers are inputs too: the query items
`URLComponents(string:)` yields, the `query` and `fragment` of the `URL`, and
`URL(string:)` as a function `string -> Option<Url>`.

The model follows the code. In particular, get does not trim its result to
the length the second call actually wrote. The code (`URL+.swift:21`, `:29`)
returns the whole buffer of the first call's length, zero-padded.
`ExtendedAttribute` states exactly that.

`ExtendedAttribute`, `ListExtendedAttributes` and `SizeThenFill` require
`|written| <= size.ret` when `size.ret >= 0`. This is the operating system's
promise that the filling call writes no more than the buffer holds. It
constrains the environment, not the callers.

## Model

| member | source | states |
|---|---|---|
| `Utf8.CharLengthIsLeadLength` | FSNotesCore/Shared/Extensions/URL+.swift:72 | the first octet of a well-formed UTF-8 char fixes its length, so the grammar is prefix-free |
| `Utf8.ScalarOf` | FSNotesCore/Shared/Extensions/URL+.swift:72 | a well-formed char decodes to a Unicode scalar value (never a surrogate, never above U+10FFFF), in the range its length allows (shortest form) |
| `Utf8.ScalarHasUtf8Char` | FSNotesCore/Shared/Extensions/URL+.swift:72 | every Unicode scalar value is the value of some well-formed UTF-8 char |
| `Utf8.ScalarOfIsInjective` | FSNotesCore/Shared/Extensions/URL+.swift:72 | two well-formed chars with the same value are the same octets, so no value has two encodings |
| `Utf8.EncodeScalar` | FSNotesCore/Shared/Extensions/URL+.swift:72 | every scalar value has a well-formed UTF-8 char that decodes back to it |
| `Utf8.EncodeScalarOf` | FSNotesCore/Shared/Extensions/URL+.swift:72 | every well-formed char is the encoding of the value it decodes to |
| `Utf8.Encode` | FSNotesCore/Shared/Extensions/URL+.swift:72 | a string's encoding has at least as many octets as the string has characters |
| `Utf8.Decode` | FSNotesCore/Shared/Extensions/URL+.swift:72 | a successful decoding has at most one char per octet and at least one char per four octets |
| `Utf8.DecodeSucceedsIffWellFormed` | FSNotesCore/Shared/Extensions/URL+.swift:72 | decoding succeeds exactly on the octet strings the RFC 3629 grammar accepts |
| `Utf8.DecodeEncode` | FSNotesCore/Shared/Extensions/URL+.swift:72 | decoding the encoding of any string gives that string |
| `Utf8.EncodeDecode` | FSNotesCore/Shared/Extensions/URL+.swift:72 | a successful decode, encoded again, gives back the same octets |
| `Utf8.EncodeIsWellFormed` | FSNotesCore/Shared/Extensions/URL+.swift:72 | every encoding is well formed |
| `Utf8.EncodeHasNulIffStringHasNul` | FSNotesCore/Shared/Extensions/URL+.swift:71-72 | an encoding contains octet 0 iff the string contains U+0000 |
| `Utf8.EncodeEmptyIffEmpty` | FSNotesCore/Shared/Extensions/URL+.swift:72 | only the empty string encodes to no octets |
| `XattrList.Zeros` | FSNotesCore/Shared/Extensions/URL+.swift:61 | `Data(count: n)` is n NUL octets |
| `XattrList.NulIndex` | FSNotesCore/Shared/Extensions/URL+.swift:71 | the separator search finds the first NUL, or the end when there is none |
| `XattrList.Split` | FSNotesCore/Shared/Extensions/URL+.swift:71 | no piece of `split(separator: 0)` is empty and none contains NUL |
| `XattrList.SplitAtNul` | FSNotesCore/Shared/Extensions/URL+.swift:71 | the pieces of `x + [0] + y` are the pieces of `x` followed by the pieces of `y` |
| `XattrList.SplitRun` | FSNotesCore/Shared/Extensions/URL+.swift:71 | a non-empty NUL-free buffer is exactly one piece |
| `XattrList.SplitZeros` | FSNotesCore/Shared/Extensions/URL+.swift:71 | a buffer of NULs alone yields no piece, so leading, trailing and adjacent NULs yield nothing |
| `XattrList.SplitIgnoresPadding` | FSNotesCore/Shared/Extensions/URL+.swift:61-71 | trailing NULs add no piece |
| `XattrList.SplitPiecesAreMaximalRuns` | FSNotesCore/Shared/Extensions/URL+.swift:71 | every piece is a maximal run of non-NUL octets of the buffer |
| `XattrList.MaximalRunsArePieces` | FSNotesCore/Shared/Extensions/URL+.swift:71 | every maximal run of non-NUL octets of the buffer is a piece |
| `XattrList.DecodePieces` | FSNotesCore/Shared/Extensions/URL+.swift:71-73 | `compactMap` never yields more names than there are pieces |
| `XattrList.WellFormedPieces` | FSNotesCore/Shared/Extensions/URL+.swift:71-73 | the pieces kept are pieces of the buffer that are well-formed UTF-8 |
| `XattrList.DecodePiecesKeepsWellFormed` | FSNotesCore/Shared/Extensions/URL+.swift:71-73 | the names are exactly the well-formed pieces, decoded, in buffer order; pieces that are not UTF-8 are dropped without failing |
| `XattrList.AllWellFormedKeepsCount` | FSNotesCore/Shared/Extensions/URL+.swift:71-73 | when every piece is UTF-8, no piece is lost |
| `XattrList.DecodedPiecesAreNonEmptyAndNulFree` | FSNotesCore/Shared/Extensions/URL+.swift:71-73 | decoded non-empty NUL-free pieces give non-empty names without U+0000 |
| `XattrList.AttributeNames` | FSNotesCore/Shared/Extensions/URL+.swift:71-73 | the buffer yields at most one name per NUL-separated piece |
| `XattrList.AttributeNamesAreNonEmptyAndNulFree` | FSNotesCore/Shared/Extensions/URL+.swift:71-74 | no listed name is empty and none contains U+0000 |
| `XattrList.AttributeNamesIgnorePadding` | FSNotesCore/Shared/Extensions/URL+.swift:61-74 | the zero padding behind the written part of the buffer yields no extra name |
| `XattrList.AttributeNamesOfListBuffer` | FSNotesCore/Shared/Extensions/URL+.swift:71-74 | a buffer of non-empty NUL-free names, each followed by NUL, decodes back to exactly those names in order |
| `Xattr.PosixError` | FSNotesCore/Shared/Extensions/URL+.swift:79-82 | the error is in the POSIX domain and its code is the `errno` value |
| `Xattr.StoreBytes` | FSNotesCore/Shared/Extensions/URL+.swift:25-27 | the filling call stores its octets at the start of the buffer and leaves the rest as it was |
| `Xattr.SizeThenFill` | FSNotesCore/Shared/Extensions/URL+.swift:17-29 | a negative size fails with the first `errno`; otherwise a negative fill result fails with the second; otherwise the result is the whole zero-filled buffer with the written octets in front |
| `Xattr.ExtendedAttribute` | FSNotesCore/Shared/Extensions/URL+.swift:13-31 | fails iff either call returns a negative value, with that call's `errno` (the size call is checked first); no other path fails; the value has the first call's length, is not trimmed to the second call's result, and is zero past the written octets |
| `Xattr.ListExtendedAttributes` | FSNotesCore/Shared/Extensions/URL+.swift:54-76 | the same error rules as get; on success the names of the whole buffer, which equal the names of the written octets |
| `Xattr.RequireZero` | FSNotesCore/Shared/Extensions/URL+.swift:40 | passes iff the result is exactly 0; otherwise fails with an error carrying `errno` |
| `Xattr.SetExtendedAttribute` | FSNotesCore/Shared/Extensions/URL+.swift:34-42 | succeeds iff `setxattr` returns exactly 0; any other value, positive ones too, throws a POSIX error carrying `errno` |
| `Xattr.RemoveExtendedAttribute` | FSNotesCore/Shared/Extensions/URL+.swift:45-51 | succeeds iff `removexattr` returns exactly 0; any other value throws a POSIX error carrying `errno` |
| `UrlHelpers.FirstNamed` | FSNotesCore/Shared/Extensions/URL+.swift:88 | `first(where:)` returns the first item with the name, and nil when no item has it |
| `UrlHelpers.QueryParam` | FSNotesCore/Shared/Extensions/URL+.swift:86-89 | nil when parsing fails or there are no items; otherwise the value of the first item with the key (nil when that item has no value), and nil when nothing matches |
| `UrlHelpers.QueryParamIsFirstMatchValue` | FSNotesCore/Shared/Extensions/URL+.swift:88 | any value returned is the value of the first item with the key |
| `UrlHelpers.FirstMatchExists` | FSNotesCore/Shared/Extensions/URL+.swift:88 | when some item has the key, a first such item exists |
| `UrlHelpers.QueryParamExample` | FSNotesCore/Shared/Extensions/URL+.swift:84-85 | on `title=blah&txt=body`, `title` gives `blah` and `missing` gives nil |
| `UrlHelpers.StartsWith` | FSNotesCore/Shared/Extensions/URL+.swift:92 | `starts(with:)` holds iff the prefix is a prefix of the string |
| `UrlHelpers.IsRemote` | FSNotesCore/Shared/Extensions/URL+.swift:91-93 | true iff the absolute string begins with `http://` or `https://` |
| `UrlHelpers.IsRemoteIsCaseSensitive` | FSNotesCore/Shared/Extensions/URL+.swift:91-93 | `HTTP://…` and `HTTPS://…` are not remote; `http://…` and `https://…` are; a path starting with `/` is not |
| `UrlHelpers.RemoveAll` | FSNotesCore/Shared/Extensions/URL+.swift:111 | removal never lengthens the string, and an empty pattern changes nothing |
| `UrlHelpers.RemoveAllKeepsPrefix` | FSNotesCore/Shared/Extensions/URL+.swift:111 | a prefix in which no occurrence of the pattern starts is kept as it is, and removal goes on after it |
| `UrlHelpers.RemoveAllNoOccurrence` | FSNotesCore/Shared/Extensions/URL+.swift:111 | a string in which the pattern does not occur is unchanged |
| `UrlHelpers.RemoveAllAbsent` | FSNotesCore/Shared/Extensions/URL+.swift:111 | a string without the pattern's first character is unchanged |
| `UrlHelpers.RemoveAllShorter` | FSNotesCore/Shared/Extensions/URL+.swift:115 | a string shorter than the pattern is unchanged |
| `UrlHelpers.RemoveAllAfter` | FSNotesCore/Shared/Extensions/URL+.swift:111 | when no occurrence starts inside the prefix, the occurrence right behind it, which is then the leftmost, is deleted, the prefix is kept and removal goes on behind it |
| `UrlHelpers.RemovingFragment` | FSNotesCore/Shared/Extensions/URL+.swift:108-119 | the result is the reparsed string with every `?query`, then every `#fragment`, removed; when reparsing fails, the URL itself |
| `UrlHelpers.RemovedString` | FSNotesCore/Shared/Extensions/URL+.swift:109-116 | the string handed to `URL(string:)` is never longer than the absolute string, and is the absolute string itself when there is neither query nor fragment |
| `UrlHelpers.RemovedStringWithoutComponents` | FSNotesCore/Shared/Extensions/URL+.swift:108-117 | with neither query nor fragment the string is unchanged |
| `UrlHelpers.RemovedStringStripsBoth` | FSNotesCore/Shared/Extensions/URL+.swift:108-117 | `base?query#fragment`, with no `?` or `#` in the base, becomes `base` whenever `?query` does not occur in `#fragment`; query and fragment may hold any other text |
| `UrlHelpers.RemovedStringStripsQuery` | FSNotesCore/Shared/Extensions/URL+.swift:108-112 | `base?query` becomes `base` |
| `UrlHelpers.RemovedStringStripsFragment` | FSNotesCore/Shared/Extensions/URL+.swift:114-116 | `base#fragment` becomes `base` |
| `UrlHelpers.RemovedStringExample` | FSNotesCore/Shared/Extensions/URL+.swift:108-117 | `http://h?a#b` (query `a`, fragment `b`) becomes `http://h` |
| `UrlHelpers.RemovedStringQuestionMarkInFragment` | FSNotesCore/Shared/Extensions/URL+.swift:108-117 | `http://h?a#x?y` (query `a`, fragment `x?y`) becomes `http://h` |
| `UrlHelpers.FragmentContainingQuerySurvives` | FSNotesCore/Shared/Extensions/URL+.swift:110-116 | as written, `base?query#head?query` becomes `base#head`: part of the fragment stays |
| `UrlHelpers.FragmentContainingQueryExample` | FSNotesCore/Shared/Extensions/URL+.swift:110-116 | as written, `http://h?a#b?a` becomes `http://h#b` |
| `UrlHelpers.RemovedStringFragmentFirst` | FSNotesCore/Shared/Extensions/URL+.swift:110-116 | the corrected order, fragment first: never longer than the absolute string, and the absolute string itself when there is neither query nor fragment |
| `UrlHelpers.FragmentFirstStripsBoth` | FSNotesCore/Shared/Extensions/URL+.swift:110-116 | removing the fragment before the query turns every `base?query#fragment` into `base`, whatever `?` the fragment holds |
| `UrlHelpers.FragmentFirstOnExample` | FSNotesCore/Shared/Extensions/URL+.swift:110-116 | with that order, `http://h?a#b?a` becomes `http://h` |
| `UrlHelpers.AsUInt64` | FSNotesCore/Shared/Extensions/URL+.swift:105 | `as? UInt64` succeeds exactly on integers in [0, 2^64) and keeps their value |
| `UrlHelpers.Attributes` | FSNotesCore/Shared/Extensions/URL+.swift:95-102 | nil exactly when `attributesOfItem` throws; otherwise its dictionary |
| `UrlHelpers.FileSize` | FSNotesCore/Shared/Extensions/URL+.swift:104-106 | 0 when the attributes are absent, when the size entry is missing, or when it is not a `UInt64`; otherwise the size; a non-zero result is always the stored size |
| `UrlHelpers.FileSizeOfFailedLookup` | FSNotesCore/Shared/Extensions/URL+.swift:95-106 | a failed attribute lookup gives size 0 and does not throw |

## Left out

- The real `getxattr`, `setxattr`, `removexattr` and `listxattr` are not modelled. Their return values and `errno` are inputs, and so are the octets the filling call writes. The round trips of a real file system (set then get, remove then get) are therefore not stated.
- `withUnsafeFileSystemRepresentation`, `withUnsafeBytes` and `withUnsafeMutableBytes` are not modelled. They are pointer plumbing. The conversion of an attribute name to a C string is not modelled either, so a name with an embedded NUL is not shown to be cut short.
- `strerror` and the message text of the `NSError` are left out. They come from a C library call; only the domain and the numeric code are kept.
- `URLComponents(string:)`, `URL.query`, `URL.fragment` and `URL(string:)` are Foundation parsers whose source is not part of this model. Their results are parameters.
- `FileManager.attributesOfItem` and the `print` diagnostic in `attributes` are file-system I/O and logging. Only the nil-on-error result is modelled.
- `typeIdentifier` (`URL+.swift:121-123`) is left out. It is a `resourceValues` file-system query with nothing of its own beyond `try?`.
- UrlHelpers.StartsWith: does not model Swift's comparison of `Character`s (grapheme clusters); it compares Unicode scalar values, which agree on ASCII absolute strings.
- UrlHelpers.FirstNamed: compares names as sequences of Unicode scalar values. Swift's `==` on `String` also equates canonically equivalent names (`e` followed by U+0301 and U+00E9); the two agree on names with one canonical form, such as ASCII names. The same holds for `UrlHelpers.QueryParam`, which uses it.
- UrlHelpers.RemoveAll: searches literally, scalar value by scalar value. `replacingOccurrences(of:with:)` without options searches by Foundation's non-literal comparison, which also matches canonically equivalent text; the two agree on ASCII absolute strings, which is what a parsed `URL` gives.
- Utf8.Decode: follows RFC 3629 exactly. Whether Foundation drops a leading U+FEFF byte-order mark is not modelled.
- System-call return values are unbounded integers. `ssize_t` limits and a failing allocation in `Data(count:)` are not modelled.

## Findings

| source | as written | input that shows it | evidently intended | confidence | as-written member | corrected member |
|---|---|---|---|---|---|---|
| FSNotesCore/Shared/Extensions/URL+.swift:110-116 | every `?query` is removed before `#fragment`, so a fragment that contains `?query` is changed before it is searched for, and it is then not found | `http://h?a#b?a` (query `a`, fragment `b?a`) gives `http://h#b` | both parts removed: `http://h` (for example, remove the fragment first) | not executed; medium: depends on Foundation parsing the fragment as `b?a` | `UrlHelpers.FragmentContainingQuerySurvives` | `UrlHelpers.FragmentFirstStripsBoth` |
