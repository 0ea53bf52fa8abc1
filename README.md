# Contact cleaner: parsing pasted contact blocks and writing CSV

This project models the text-processing core of the contact cleaner web page
(`app/page.tsx`). A user pastes free text holding several contacts. Blank lines separate the
contacts. The page reads a record off each contact block: name, job title, phone, e-mail and
URL. It drops the records with every field empty and can export the rest as CSV.

The model is pure Dafny, as the source is. It is a set of functions with lemmas about them:

- `Contacts` (`contact.dfy`): the `Contact` record and the "every field empty" test of the
  final filter.
- `Text` (`text.dfy`): the JavaScript built-ins the core relies on. These are `trim`, the white
  space class `\s` (the ECMAScript WhiteSpace and LineTerminator code points), and `split` and
  `join` on a single character.
- `Email`, `Phone`, `Url` (`email.dfy`, `phone.dfy`, `url.dfy`): `extractEmail`, `extractPhone`
  and `extractUrl`. Each regular expression is modelled twice:
  - as a matcher that follows the backtracking a JavaScript engine does for that pattern (a
    greedy run, then giving back characters, and a leftmost search);
  - as a declarative "shape" predicate saying which substrings the pattern admits.

  Lemmas prove the matcher answers exactly the leftmost match, and the longest at its start
  where the pattern is greedy.
- `NameTitle` (`name_title.dfy`): `extractNameAndTitle` and its three rules. The first rule is the
  lazy pattern `^(.+?)\s*-\s*(.+)$`. The second is a split at the middle dot `·`. The third is a
  fallback where the whole line is the name.
- `ParseRaw` (`parse_raw.dfy`): `parseRaw`. It splits at `/\n\s*\n/`, trims, drops empty blocks,
  reads one record per block, and filters out blank records.
- `Csv` (`csv.dfy`): `contactsToCSV` with its inner `escape`. A reader for the format is written
  alongside it so the round trip can be stated and proved.

A consequence worth knowing: on a line without line terminators, the dash rule splits at the
first hyphen that has a character before it and one after it (`NameTitle.DashIsFirstHyphen`).
A hyphenated name such as `Mary-Jane Doe - CTO` therefore gives the name `Mary` and the title
`Jane Doe - CTO`.

## Model

| member | source | states |
|---|---|---|
| Text.Trim | app/page.tsx:74 | `trim`: the result is no longer than the input, has no white space at either end, and is empty exactly when the input is all white space; `Text.TrimDecompose` and `Text.TrimUnique` pin it down as the input less the white space at its ends |
| Text.Split | app/page.tsx:55 | `split` on one character gives one piece or more, none holding the separator; `Text.JoinSplit` and `Text.SplitJoin` make it the inverse of `Text.Join` |
| Text.Join | app/page.tsx:59 | `join` with one character; its contract is the round trip with `Text.Split`: `Text.JoinSplit` and `Text.SplitJoin` |
| Text.TrimDecompose | app/page.tsx:74 | `trim` removes only white space: the input is the result with all-white-space text before and after it |
| Text.TrimUnique | app/page.tsx:74 | conversely, a trimmed text with white space on both sides trims back to itself |
| Text.TrimIdempotent | app/page.tsx:80 | trimming twice is trimming once |
| Text.TrimAroundSpaces | app/page.tsx:49-50 | white space added at either end does not change what `trim` returns |
| Text.JoinSplit | app/page.tsx:59 | joining the pieces of a split with the same character gives back the input |
| Text.SplitJoin | app/page.tsx:55 | splitting a join of separator-free pieces gives back the pieces |
| Text.SplitTailJoin | app/page.tsx:59 | re-joining every piece but the first (`slice(1).join`) gives the text after the first separator |
| Text.SplitCount | app/page.tsx:56 | a split yields two or more pieces exactly when the separator occurs |
| Email.DomainBacktrackCorrect | app/page.tsx:15 | backtracking the greedy domain run finds a '.' followed by two or more letters when one exists in the run, and the match it gives is the longest |
| Email.EmailAtCorrect | app/page.tsx:15-16 | the matcher at a position answers a match exactly when the pattern admits one there, and the longest one |
| Email.FirstEmailCorrect | app/page.tsx:16 | the search answers the match at the first position where one exists, and no earlier position has a match |
| Email.FirstEmailLeftmostLongest | app/page.tsx:16-17 | the match found starts leftmost, is the longest there, and does not follow a local-part character |
| Email.ExtractEmail | app/page.tsx:13-18 | `extractEmail` answers a part of the block; which part is stated by `Email.ExtractEmailSpec` |
| Email.ExtractEmailSpec | app/page.tsx:13-18 | `extractEmail` returns "" exactly when no substring matches, and otherwise the leftmost, longest match |
| Phone.DigitBacktrackCorrect | app/page.tsx:23 | backtracking the greedy class run closes the match at the last digit of the run that lies seven or more places past the first digit |
| Phone.PhoneAtCorrect | app/page.tsx:23-24 | the matcher at a position answers a match exactly when the pattern admits one there, and the longest |
| Phone.FirstPhoneCorrect | app/page.tsx:24 | each step of the global search finds the match at the first position where one exists |
| Phone.PhoneMatches | app/page.tsx:24 | the list of the global `match` lies inside the text; `Phone.PhoneMatchesAreMatches`, `Phone.PhoneMatchesOrdered` and `Phone.PhoneMatchesCover` state what it lists |
| Phone.PhoneMatchesAreMatches | app/page.tsx:24 | every match the global `match` lists is the longest match at its start |
| Phone.PhoneMatchesOrdered | app/page.tsx:24 | the listed matches come left to right without overlapping |
| Phone.PhoneMatchesCover | app/page.tsx:24 | every substring the pattern admits starts inside a listed match: the search skips none |
| Phone.FirstLongest | app/page.tsx:27-29 | the element the stable sort by descending length puts first: no element is longer, and every earlier one is shorter |
| Phone.TrimKeepsMatch | app/page.tsx:30 | a match neither starts nor ends with white space, so the final `trim` leaves it unchanged |
| Phone.PickedBeatsEveryMatch | app/page.tsx:24-30 | the picked match is at least as long as any substring the pattern admits, and no equally long one starts earlier |
| Phone.ExtractPhone | app/page.tsx:20-31 | `extractPhone` answers a trimmed text no longer than the block; which match it is is stated by `Phone.ExtractPhoneSpec` |
| Phone.ExtractPhoneSpec | app/page.tsx:20-31 | `extractPhone` returns "" exactly when no substring matches, and otherwise a match no other is longer than, the earliest among the longest |
| Url.SchemeEndComplete | app/page.tsx:35 | the scheme matcher accepts "http://" and "https://" in any letter case |
| Url.SchemeEndSound | app/page.tsx:35 | what the scheme matcher accepts is "http://" or "https://" in some letter case |
| Url.UrlAtCorrect | app/page.tsx:35-36 | the matcher at a position answers a match exactly when there is one, ending at the next white space or the end of the block |
| Url.FirstUrlCorrect | app/page.tsx:36 | the search answers the match at the first position where one exists |
| Url.ExtractUrl | app/page.tsx:33-38 | `extractUrl` answers a part of the block; which part is stated by `Url.ExtractUrlSpec` |
| Url.ExtractUrlSpec | app/page.tsx:33-38 | `extractUrl` returns "" exactly when no substring matches, and otherwise the leftmost match, free of white space and running up to the next white space |
| NameTitle.ExtractNameAndTitle | app/page.tsx:40-68 | whichever rule applies, the name and the title come out trimmed; which rule applies is stated by `NameTitle.NameAndTitlePrecedence` |
| NameTitle.TailBacktrackCorrect | app/page.tsx:45 | the second group starts at the latest candidate place, from the end of the white-space run back to just past the hyphen, whose tail holds no line terminator; it answers none only when no candidate has such a tail |
| NameTitle.DashAtCorrect | app/page.tsx:45 | after a first group, the rest of the pattern matches exactly when the matcher says so, and the matcher picks the longest white-space run before the second group |
| NameTitle.DashFromCorrect | app/page.tsx:45 | the lazy first group is the shortest one for which the rest of the pattern matches |
| NameTitle.DashMatchCorrect | app/page.tsx:44-46 | the dash pattern matches exactly when the line has its shape, with the shortest first group and then the longest white-space run before the second group |
| NameTitle.DashIsFirstHyphen | app/page.tsx:44-52 | on a line without line terminators, the name and title of the dash rule are the trimmed texts before and after the first hyphen that has a character on each side |
| NameTitle.NoHyphenNoDash | app/page.tsx:44-47 | without such a hyphen the dash pattern fails |
| NameTitle.NameAndTitlePrecedence | app/page.tsx:40-68 | the three rules and their order: dash split, else a split at the first middle dot with later dots kept in the title, else the whole line as name with an empty title |
| NameTitle.DashRule | app/page.tsx:44-52 | the first rule alone: split at the first hyphen that has a character on each side, both halves trimmed |
| NameTitle.MiddleDotRule | app/page.tsx:54-61 | the second rule alone: without such a hyphen, split at the first middle dot, the rest re-joined with middle dots as the title |
| NameTitle.FallbackRule | app/page.tsx:63-67 | the third rule alone: with neither, the trimmed line is the name and the title is empty |
| NameTitle.DashForm | app/page.tsx:43-52 | "Name - Title" with a hyphen-free name gives exactly that name and that title |
| NameTitle.MiddleDotForm | app/page.tsx:54-61 | "Name · Title · Company" without hyphens gives the trimmed name and the trimmed rest, later middle dots included |
| ParseRaw.SepEndCorrect | app/page.tsx:73 | the separator matcher answers a match of `\n\s*\n` exactly when one starts there, and the longest |
| ParseRaw.NoSeparatorOnePiece | app/page.tsx:73 | text holding no blank line splits into one piece, itself |
| ParseRaw.SplitBlocks | app/page.tsx:73 | `split(/\n\s*\n/)` gives one piece or more; where it cuts is stated by `ParseRaw.SepEndCorrect`, `ParseRaw.NoSeparatorOnePiece` and `ParseRaw.BlocksAppend` |
| ParseRaw.BlocksAppend | app/page.tsx:72-75 | for any gap of white space holding a blank line, between a text that does not end in white space and holds no blank line and a text that does not start with white space, the blocks of the whole are the blocks of the first text followed by those of the second; peeling off one block at a time this covers every text |
| ParseRaw.TrimNonEmptyAppend | app/page.tsx:74-75 | trimming and dropping empty pieces works piecewise over a concatenation |
| ParseRaw.ParseBlock | app/page.tsx:77-96 | the record of one block: its name, title and phone come out trimmed |
| ParseRaw.ParseBlocksAppend | app/page.tsx:77-96 | reading the records of blocks works piecewise over a concatenation |
| ParseRaw.DropBlank | app/page.tsx:99-106 | the filter keeps only records with a non-empty field, each taken from the input, and keeps every such record |
| ParseRaw.DropBlankAppend | app/page.tsx:99-106 | the filter works piecewise over a concatenation |
| ParseRaw.BlocksShape | app/page.tsx:72-75 | every block is non-empty, trimmed and holds no blank line |
| ParseRaw.ParseRaw | app/page.tsx:70-107 | `parseRaw` returns no blank record and at most one record per block |
| ParseRaw.ParseRawAppend | app/page.tsx:70-107 | blocks separated by a blank line are read independently and in order: for any gap of white space holding a blank line, between a text that does not end in white space and holds no blank line and a text that does not start with white space, the records are those of the first text followed by those of the second |
| ParseRaw.ParseRawOneBlock | app/page.tsx:70-107 | text without a blank line gives one record, or none when every field of it is empty or the text is all white space |
| ParseRaw.ParseRawAllSpace | app/page.tsx:70-107 | text made only of white space gives no record |
| ParseRaw.FirstLineOfBlock | app/page.tsx:78-83 | the first line of a block is its text up to the first line feed, trimmed, and never empty, so `lines[0] \|\| ""` never falls back to "" |
| ParseRaw.LoneMiddleDotIsDropped | app/page.tsx:98-106 | the filter is reachable: a block holding only a middle dot gives a record with every field empty, and no contact |
| Csv.Escape | app/page.tsx:125-128 | an escaped value starts and ends with a double quote; `Csv.EscapeLength`, `Csv.EscapePlain` and `Csv.ReadFieldEscape` state the rest |
| Csv.EscapeLength | app/page.tsx:125-128 | an escaped value is the value plus two quotes plus one character per double quote in it |
| Csv.EscapePlain | app/page.tsx:125-128 | a value without double quotes is only wrapped in quotes |
| Csv.ReadFieldEscape | app/page.tsx:125-128 | reading an escaped field gives back the value, whatever it holds |
| Csv.ReadRowEncode | app/page.tsx:131-133 | reading a line of escaped fields joined by ',' gives back the fields |
| Csv.ContactsToCsv | app/page.tsx:109-138 | `contactsToCSV`; its contract is the round trip `Csv.CsvRoundTrip` with `Csv.EmptyIsHeaderLine` and `Csv.ContactsToCsvAppend` |
| Csv.CsvRoundTrip | app/page.tsx:109-138 | reading the file gives back exactly the records written, in order, whatever quotes, commas or line feeds their fields hold |
| Csv.EmptyIsHeaderLine | app/page.tsx:110-131 | with no records the file is the header line alone, `"nama","jabatan","phone","email","url"` |
| Csv.ContactsToCsvAppend | app/page.tsx:130-137 | a further record adds one line at the end and changes nothing before it |

## Left out

- The `HomePage` component (app/page.tsx:140 onward): React state, the text area, the table, the
  clipboard copy with its timer and its failure alert. These are user-interface code and I/O.
- The general JavaScript regular-expression engine. The core holds six regular-expression
  literals. Five are matched against text: the e-mail, phone, URL and dash patterns and the
  block separator. Each of these is modelled by a matcher written for it, with the backtracking
  that matters for that pattern. The sixth, `/"/g` in `escape` (app/page.tsx:126), only drives
  `replace`; `Csv.DoubleQuotes` models that replacement directly.
- `Array.prototype.sort` in `extractPhone` is modelled by its effect. `Phone.FirstLongest` picks
  the first of the longest matches, which is what a stable sort by descending length puts first.
  The sorting algorithm itself is not modelled.
- Strings are sequences of Unicode scalar values, while JavaScript strings are UTF-16 code units.
  Lengths differ for characters outside the Basic Multilingual Plane. The one length the source
  compares is of phone matches, and those hold only BMP characters.
- NameTitle.NameAndTitlePrecedence: covers lines without line terminators only. The matcher
  itself (`NameTitle.DashMatch`, with `NameTitle.DashMatchCorrect`) models lines holding '\r',
  U+2028 or U+2029 as well. The first line of a block never holds '\n'.
- NameTitle.DashRule: covers lines without line terminators only, for the same reason.
- NameTitle.MiddleDotRule: covers lines without line terminators only, for the same reason.
- NameTitle.FallbackRule: covers lines without line terminators only, for the same reason.
- The CSV reader (`Csv.DecodeContacts`) has no counterpart in the source. It exists only to state
  the round trip.
