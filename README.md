# nictag and SMBIOS helpers of sysinfo, in Dafny

`sysinfo` reports facts about a SmartOS host as a name/value list. This
project models two parts of it:

- The nictag library (`common/nictag/nictag.c`), which reads the USB key
  configuration file. These operations are modelled:
  - `nictag_parse_config` turns the text buffer of `key=value` lines into a
    name/value list.
  - `nictag_get_tags` maps every `<tag>_nic` key whose value is a MAC
    address to that address, normalised.
  - `nictag_get_etherstubs` splits the `etherstub` value on commas.
  - `str2mac` and `mac2str` read and print MAC addresses.
- The SMBIOS helpers of sysinfo (`sysinfo/sysinfo_smbios.c`). These turn
  values already read from the SMBIOS tables into list entries:
  - the system strings that are present;
  - the UUID text;
  - the CPU type without trailing spaces;
  - the total number of cores.

The files are:

- `options.dfy`: the `Option` type. `None` stands for a NULL result.
- `strings.dfy`: C strings (the characters before the first NUL), `strchr`,
  writing at an offset with `sprintf`/`strcat`, splitting and joining on a
  separator, removing a character, and hexadecimal digits.
- `nictag.dfy`: the nictag library.
- `smbios.dfy`: the SMBIOS helpers.

## How the C code is modelled

An nvlist made with `NV_UNIQUE_NAME` becomes a Dafny `map`. Adding a name
replaces its old value.

The fixed C buffers stay fixed `array`s of the same size:

- `line`, `key`, `value`, `stubname`, `mac_normalized` and the etherstub
  pointer array hold 1024 entries;
- `uuid` and `type` hold 256.

The loops that fill these buffers are `method`s with loop invariants. Each
one is proved against a function that says what the buffer holds at the end:

| method | specification function |
|---|---|
| `NicTag.ParseConfig` | `ConfigOf` |
| `NicTag.SplitKeyValue` | `KeyValue` |
| `NicTag.MacToStr` | `MacText` |
| `NicTag.GetEtherstubs` | `Split` |
| `Smbios.FormatUuid` | `UuidText` |
| `Smbios.CpuType` | `TrimType` of `Truncate` |

The lemmas state the library's promises about those functions.

`strchr` stops at the first NUL. So the configuration text is the C string
of the buffer `buf`, written `CStr(buf)`, and not all of `buf`.

### Where the code may not do what it intends

The model does what the code does in each of these cases. A reader of the
code might expect otherwise.

- **A last line without a newline.** A reader would expect that line to be
  read too. It is not: the loop at `common/nictag/nictag.c:84` stops when
  `strchr` finds no further newline, so that text adds nothing
  (`UnterminatedTailIgnored`).
- **Further '=' characters.** A reader would expect `a=b=c` to give the
  value `b=c`. The first `=` does end the key, but every later `=` is
  dropped, because the `continue` at `common/nictag/nictag.c:116-119` skips
  it. The value is `bc` (`EntryOfLine`).
- **A bare `_nic` key.** A reader would expect this key to name no tag. It
  passes the suffix test and names the empty tag
  (`common/nictag/nictag.c:162-164`, `BareNicKey`).
- **Keys shorter than four characters.** For these keys the C code reads
  before the start of the name. Here they are not tag keys.

## Model

| member | source | states |
|---|---|---|
| Strings.CStr | common/nictag/nictag.c:84 | the text a C string routine sees is a NUL-free prefix of the buffer, ending at the buffer's end or at its first NUL |
| Strings.CStrTerminated | common/nictag/nictag.c:106 | a NUL at `k` with none before it ends the C string at `k` |
| Strings.CStrNoNul | common/nictag/nictag.c:84 | a sequence without NUL is its own C string |
| Strings.CStrAppend | common/nictag/nictag.c:84 | a NUL-free head passes unchanged into the C string of a concatenation |
| Strings.CStrSlice | common/nictag/nictag.c:104-105 | a stretch of the C string is the same stretch of the buffer and holds no NUL |
| Strings.ReadCString | sysinfo/sysinfo_smbios.c:37 | reading a character array up to its first NUL yields exactly the array's C string |
| Strings.WriteString | common/nictag/nictag.c:48-50 | `sprintf`/`strcat` at offset `n` keeps the first `n` characters, appends the text, puts a NUL after it, leaves every cell after that NUL as it was, and returns the new length |
| Strings.StrChr | common/nictag/nictag.c:84 | `strchr` returns nothing iff the character does not occur in the rest of the C string; otherwise it returns the first index where it occurs |
| Strings.IndexOf | common/nictag/nictag.c:116-117 | the index found holds the character and none comes before it |
| Strings.IndexOfUnique | common/nictag/nictag.c:116-117 | an occurrence with none before it is the one `IndexOf` finds |
| Strings.Split | common/nictag/nictag.c:198-219 | splitting always yields at least one segment |
| Strings.SplitSegments | common/nictag/nictag.c:198-219 | no segment holds the separator |
| Strings.SplitSegmentsOmit | common/nictag/nictag.c:84-96 | a character missing from the text is missing from every segment, so the lines of a C string hold no NUL |
| Strings.SplitStep | common/nictag/nictag.c:84-95 | the first separator, at `k`, ends the first segment, and the rest of the text holds the other segments |
| Strings.SplitFrom | common/nictag/nictag.c:198-214 | the same, for a scan that starts at `from` |
| Strings.JoinSplit | common/nictag/nictag.c:198-219 | joining the segments with the separator gives the text back |
| Strings.SplitJoin | common/nictag/nictag.c:198-219 | splitting the join of separator-free parts gives the parts back |
| Strings.JoinCons | common/nictag/nictag.c:198-219 | joining a part before others puts one separator between them |
| Strings.JoinSnoc | common/nictag/nictag.c:49-50 | joining a part after others puts one separator between them |
| Strings.SplitCount | common/nictag/nictag.c:198-220 | the number of segments is the number of separators plus one |
| Strings.SplitCons | common/nictag/nictag.c:198-214 | a separator-free head, a separator and a rest split into the head and the segments of the rest |
| Strings.SplitAppend | common/nictag/nictag.c:84-138 | splitting `a + sep + b` gives the segments of `a` followed by those of `b` |
| Strings.SplitAppendStep | common/nictag/nictag.c:84-138 | the inductive step of `SplitAppend`: one more leading segment |
| Strings.NotInExtend | common/nictag/nictag.c:84 | a scan that passes another character has still not met the one it looks for |
| Strings.CStrAt | common/nictag/nictag.c:84 | a non-NUL character that the C string reaches belongs to it |
| Strings.CStrEnd | common/nictag/nictag.c:84 | the C string ends where the buffer ends or holds a NUL |
| Strings.Without | common/nictag/nictag.c:116-124 | the result has no occurrence of the removed character and is no longer than the input |
| Strings.NoneWithout | common/nictag/nictag.c:116-124 | removing a character adds none: a character absent from the input is absent from the result |
| Strings.WithoutAbsent | common/nictag/nictag.c:116-124 | removing a character that does not occur changes nothing |
| Strings.WithoutCounts | common/nictag/nictag.c:116-124 | every other character keeps its number of occurrences and the removed one has none |
| Strings.WithoutSnoc | common/nictag/nictag.c:123-124 | a further character is kept unless it is the removed one |
| Strings.HexDigit | common/nictag/nictag.c:48 | a digit value is printed as a lowercase hexadecimal digit |
| Strings.HexValue | common/nictag/nictag.c:56 | the value that `%x` reads from a run of hexadecimal digits, most significant first |
| Strings.DigitValue | common/nictag/nictag.c:56 | a hexadecimal digit denotes a value below 16 |
| Strings.Hex2 | common/nictag/nictag.c:48 | `%02x` of a byte is exactly two lowercase hexadecimal digits |
| Strings.HexValueOfHex2 | common/nictag/nictag.c:48-56 | reading the `%02x` text of a byte with `%x` gives the byte back |
| NicTag.Lines | common/nictag/nictag.c:84-137 | the lines the loop visits: the segments of the C string that a `'\n'` ends, in order; text after the last newline is not a line |
| NicTag.ParseLine | common/nictag/nictag.c:98-134 | the entry one line adds: none for a line of 1024 characters or more, an empty line or a comment, otherwise `KeyValue` of the line |
| NicTag.KeyValue | common/nictag/nictag.c:113-131 | none for a line without `=`; otherwise the text before the first `=` and the text after it with every `=` removed |
| NicTag.Store | common/nictag/nictag.c:84-137 | the list after adding the entries of the lines in order, each replacing any earlier value of its key |
| NicTag.Insert | common/nictag/nictag.c:134 | `nvlist_add_string` on a unique-name list: no entry leaves the list as it was; an entry sets its key to its value, adds that key alone and keeps every other key's value |
| NicTag.ConfigOf | common/nictag/nictag.c:71-141 | the list `nictag_parse_config` returns for a buffer: the entries of the lines of its C string added to an empty list |
| NicTag.LinesStep | common/nictag/nictag.c:84-96 | the first line ends at the first `'\n'` and the rest of the text holds the other lines |
| NicTag.ParseConfig | common/nictag/nictag.c:71-141 | the list built by walking the buffer from newline to newline is `ConfigOf(buf)`, the entries of the `'\n'`-terminated lines of the C string added in order |
| NicTag.StoreFrom | common/nictag/nictag.c:95-137 | one turn of the loop adds the entry of the line from `index` to the newline and continues after that newline |
| NicTag.ParseLineAt | common/nictag/nictag.c:95-134 | the loop body returns the entry of exactly the text between the cursors |
| NicTag.CopyLine | common/nictag/nictag.c:103-106 | the line buffer holds the line's characters and a NUL |
| NicTag.SplitKeyValue | common/nictag/nictag.c:112-131 | the character loop finds no entry for a line without `=`, and otherwise the key before the first `=` and the rest without `=` |
| NicTag.ScanLine | common/nictag/nictag.c:113-125 | after the loop, `key`, `value`, `is_key` and `j` are as `Scanned` describes for the whole line |
| NicTag.ScanChar | common/nictag/nictag.c:115-124 | one character keeps `Scanned` true |
| NicTag.ScanFirstEq | common/nictag/nictag.c:116-119 | the first `=` puts a NUL into `key` and ends the key |
| NicTag.ScanLaterEq | common/nictag/nictag.c:116-119 | a later `=` puts a NUL into `key` and adds nothing to `value` |
| NicTag.ScanKeyChar | common/nictag/nictag.c:121-122 | before the first `=`, a character goes into `key` at its own index |
| NicTag.ScanValueChar | common/nictag/nictag.c:123-124 | after the first `=`, a character goes into `value` at `j` |
| NicTag.KeyValueOfScan | common/nictag/nictag.c:126-134 | the C strings left in `key` and in `value` after `value[j] = '\0'` are the key and value of the line |
| NicTag.LineByLine | common/nictag/nictag.c:84-137 | a line and its newline add the line's entry, and parsing goes on with the rest of the text, whatever the line held |
| NicTag.SkippedLines | common/nictag/nictag.c:98-130 | a line adds nothing iff it is 1024 characters or longer, empty, a comment, or has no `=` |
| NicTag.ParsedEntry | common/nictag/nictag.c:113-131 | a line that adds an entry is its key, `=` and a remainder: the key has no `=` and the value is the remainder without `=` |
| NicTag.EntryOfLine | common/nictag/nictag.c:113-134 | conversely, a key without `=` that is not a comment, `=` and a remainder that fit the buffer give that key and the remainder without `=` |
| NicTag.ParseLineKept | common/nictag/nictag.c:98-110 | a line that adds an entry fits the buffer, is not empty and is not a comment |
| NicTag.ParseLineKeyed | common/nictag/nictag.c:98-113 | a line that fits and is not empty or a comment is split at its first `=` |
| NicTag.KeyValueAt | common/nictag/nictag.c:113-125 | the first `=`, at `n`, splits a line into the key before it and the rest without `=` |
| NicTag.UnterminatedTailIgnored | common/nictag/nictag.c:84 | text after the last newline adds nothing to the list |
| NicTag.LinesDropTail | common/nictag/nictag.c:84 | text without a newline after the last newline adds no line |
| NicTag.LastWins | common/nictag/nictag.c:78 | with unique names, the entry of the last line for a key is the value that key ends with |
| NicTag.NoLaterKey | common/nictag/nictag.c:134 | lines that do not add a key leave its presence and its value as they were |
| NicTag.KeysFromLines | common/nictag/nictag.c:134 | every key of the result was already present or comes from some line |
| NicTag.LineWellFormed | common/nictag/nictag.c:98-131 | the entry of a line without newline or NUL has a key and a value without `=`, newline or NUL that fit the buffers; a non-empty key does not start with `#` |
| NicTag.StoreWellFormed | common/nictag/nictag.c:84-137 | adding the entries of lines without newline or NUL keeps every entry well formed |
| NicTag.ParsedWellFormed | common/nictag/nictag.c:71-141 | every entry of a parsed list is well formed |
| NicTag.DuplicateKey | common/nictag/nictag.c:78 | two lines for the same key, as in `k=1\nk=2\n`, leave that key alone, with the later value |
| NicTag.ConfigOfTwoLines | common/nictag/nictag.c:84-137 | a text of two newline-terminated lines is parsed as those two lines in order |
| NicTag.StoreTwo | common/nictag/nictag.c:134 | two lines add their entries in order |
| NicTag.TwoLines | common/nictag/nictag.c:84-95 | two newline-terminated lines are the two lines of the text |
| NicTag.StrToMac | common/nictag/nictag.c:53-63 | `str2mac`: the six octets when the text is six `:`-separated hexadecimal fields, each a byte, with nothing after the sixth; nothing otherwise |
| NicTag.MacText | common/nictag/nictag.c:44-51 | the text `mac2str` writes: the six octets as `%02x`, joined by `:` |
| NicTag.StrToMacAccepted | common/nictag/nictag.c:53-63 | accepted text is exactly six `:`-separated hexadecimal fields, each a byte, joined by `:`, and it denotes their values |
| NicTag.StrToMacOfOctets | common/nictag/nictag.c:53-63 | conversely, six byte-valued hexadecimal fields joined by `:` are accepted, with their values |
| NicTag.MacRoundTrip | common/nictag/nictag.c:44-63 | printing an address and reading it back gives the same six octets |
| NicTag.Octets | common/nictag/nictag.c:48-50 | there is one rendering per octet |
| NicTag.OctetsShape | common/nictag/nictag.c:48-50 | the text of `n` octets has `3n - 1` characters: a `:` at every third position and lowercase digits elsewhere |
| NicTag.MacTextCanonical | common/nictag/nictag.c:44-51 | a printed address is 17 characters long: lowercase digits, with `:` at positions 2, 5, 8, 11 and 14 |
| NicTag.MacTextNoNul | common/nictag/nictag.c:44-51 | a printed address holds no NUL |
| NicTag.MacTextStep | common/nictag/nictag.c:49-50 | each turn of the loop appends `:` and the next octet's two digits |
| NicTag.MacToStr | common/nictag/nictag.c:44-51 | the buffer filled at the moving offset `n` holds the canonical text of the address |
| NicTag.IsTagKey | common/nictag/nictag.c:159-163 | a key is a tag key iff it has at least four characters and its last four are `_nic` |
| NicTag.IsOctet | common/nictag/nictag.c:56-62 | a field `str2mac` accepts: one or more hexadecimal digits whose value fits a byte |
| NicTag.IsMac | common/nictag/nictag.c:56-62 | the text `str2mac` accepts: six `:`-separated fields, each an octet, with nothing after the sixth |
| NicTag.TagName | common/nictag/nictag.c:159-164 | the tag followed by `_nic` is the key |
| NicTag.BareNicKey | common/nictag/nictag.c:159-164 | the key `_nic` alone passes the test and names the empty tag |
| NicTag.TagNameInjective | common/nictag/nictag.c:159-175 | two tag keys with the same tag are the same key, so no tag is written twice |
| NicTag.GetTags | common/nictag/nictag.c:143-179 | every `<tag>_nic` key with an accepted MAC value gives its tag, mapped to the normalised address; every tag in the result comes from such a key; rejected keys are skipped and the others still processed |
| NicTag.GetEtherstubs | common/nictag/nictag.c:181-223 | nothing iff the `etherstub` key is absent; otherwise the `,`-separated segments of its value, in order, empty ones and the last included |
| NicTag.SplitStubs | common/nictag/nictag.c:198-215 | after the comma loop the stored names followed by the text after the last comma are the segments of the value |
| NicTag.StoreStub | common/nictag/nictag.c:201-213 | one turn of the comma loop stores the segment before the comma and keeps the loop invariant |
| NicTag.StubStep | common/nictag/nictag.c:198-214 | the segment before the next comma is the next segment of the value |
| NicTag.CopyStub | common/nictag/nictag.c:201-211 | `stubname` holds the characters from `position` up to the comma followed by a NUL, its later cells keep their contents, and the returned copy is those characters |
| NicTag.FindChar | common/nictag/nictag.c:198 | `strchr` on a NUL-free value: nothing iff the character is absent from the rest, otherwise its first index there |
| NicTag.EtherstubCount | common/nictag/nictag.c:191-220 | there is one etherstub more than there are commas, and joining them with `,` gives the value back |
| NicTag.SplitThree | common/nictag/nictag.c:198-219 | three comma-free names joined by commas give back exactly those three etherstubs, in order; an empty name, as in `a,,b`, stays in the list |
| Smbios.AddFields | sysinfo/sysinfo_smbios.c:7-22 | adds, in order, each (name, string) field whose string is non-empty |
| Smbios.SystemCommon | sysinfo/sysinfo_smbios.c:7-22 | `do_system_common`: the seven info strings added under their names by `AddFields` |
| Smbios.SystemFields | sysinfo/sysinfo_smbios.c:8-21 | the seven name/string pairs that `do_system_common` tests, in its order |
| Smbios.AddFieldsOther | sysinfo/sysinfo_smbios.c:7-22 | a name that no field carries keeps its entry, or stays absent |
| Smbios.AddFieldsAt | sysinfo/sysinfo_smbios.c:7-22 | with distinct names, a field with a non-empty string is added with that string and a field with an empty one leaves its name as it was |
| Smbios.SystemCommonEntries | sysinfo/sysinfo_smbios.c:7-22 | each of the seven strings is added under its name iff it is non-empty |
| Smbios.SystemCommonOthers | sysinfo/sysinfo_smbios.c:7-22 | no other name is added or changed |
| Smbios.UuidText | sysinfo/sysinfo_smbios.c:29-35 | the UUID text: each byte as two lowercase hexadecimal digits, in order, with a `-` after bytes 3, 5, 7 and 9 |
| Smbios.DashAfter | sysinfo/sysinfo_smbios.c:33 | a `-` follows the byte at index 3, 5, 7 or 9 |
| Smbios.UuidTextSnoc | sysinfo/sysinfo_smbios.c:29-35 | one more byte appends its two digits and, after bytes 3, 5, 7 and 9, a `-` |
| Smbios.UuidLength | sysinfo/sysinfo_smbios.c:29-35 | `n` bytes give `2n` digits plus one `-` for each of the indices 3, 5, 7 and 9 below `n` |
| Smbios.UuidChars | sysinfo/sysinfo_smbios.c:29-35 | the text holds only lowercase hexadecimal digits and `-` |
| Smbios.UuidPrefix | sysinfo/sysinfo_smbios.c:29-35 | the text of the first bytes is a prefix of the text of all of them |
| Smbios.UuidAt | sysinfo/sysinfo_smbios.c:29-35 | byte `i` is rendered, in order, as two digits at position `2i` plus the dashes before it, and a `-` follows iff `i` is 3, 5, 7 or 9 |
| Smbios.UuidDigitsAt | sysinfo/sysinfo_smbios.c:31-32 | byte `i` is rendered at position `2i` plus the dashes before it |
| Smbios.UuidDashAt | sysinfo/sysinfo_smbios.c:33-34 | after bytes 3, 5, 7 and 9 the next character is `-` |
| Smbios.UuidRun | sysinfo/sysinfo_smbios.c:29-35 | bytes with no dash after them are rendered as plain digits |
| Smbios.UuidRunStep | sysinfo/sysinfo_smbios.c:29-35 | the inductive step of `UuidRun` |
| Smbios.HexStringSnoc | sysinfo/sysinfo_smbios.c:31-32 | a further byte appends its two digits |
| Smbios.UuidGroup | sysinfo/sysinfo_smbios.c:29-35 | a group of bytes ending at a dash position is rendered as its digits and a `-` |
| Smbios.UuidLayout | sysinfo/sysinfo_smbios.c:29-35 | sixteen bytes give the 36-character 8-4-4-4-12 text |
| Smbios.FormatUuid | sysinfo/sysinfo_smbios.c:24-35 | the `uuid` buffer built with `snprintf`, `strncat` and `strcat` holds `UuidText` of the bytes |
| Smbios.DoSystem | sysinfo/sysinfo_smbios.c:24-40 | `UUID`, `SKU Number` and `HW Family` are added with the UUID text and the two strings |
| Smbios.Truncate | sysinfo/sysinfo_smbios.c:47-49 | what `strncpy` into `type` and `type[255] = '\0'` keep: a prefix of the version, all of it when shorter than 256 characters and its first 255 otherwise |
| Smbios.TrimType | sysinfo/sysinfo_smbios.c:50-51 | the downward loop's result: the text without its trailing spaces, except that the first character always stays |
| Smbios.TrimTypeAt | sysinfo/sysinfo_smbios.c:47-51 | the trimmed type is the prefix up to the last character that is not a space, or the first character |
| Smbios.TrimTypeShape | sysinfo/sysinfo_smbios.c:47-51 | the trimmed type is a non-empty prefix, only spaces were removed, and a result longer than one character does not end in a space |
| Smbios.StrNCopy | sysinfo/sysinfo_smbios.c:47 | `strncpy` copies the characters that fit and fills the rest of the buffer with NULs |
| Smbios.CpuType | sysinfo/sysinfo_smbios.c:42-52 | no type for an empty version string; otherwise the version cut to 255 characters, without trailing spaces, and never shorter than its first character |
| Smbios.DoProcessorCommon | sysinfo/sysinfo_smbios.c:42-55 | `CPU Type` is added iff the version string is non-empty |
| Smbios.TotalCores | sysinfo/sysinfo_smbios.c:57-66 | no count iff Core Count is 0; Core Count 2 when Core Count is FFh and Core Count 2 is set; Core Count otherwise; always positive |
| Smbios.TotalCoresDecodes | sysinfo/sysinfo_smbios.c:57-66 | the number of cores comes back from both encodings of section 7.5 of DSP0134: with Core Count 2, and with Core Count alone |
| Smbios.DoProcessor | sysinfo/sysinfo_smbios.c:57-66 | `CPU Total Cores` is added, as an int32, iff Core Count is not 0 |

## Left out

- `read_file` and `nictag_read_config` (`common/nictag/nictag.c:17-42, 65-69`):
  file I/O. The text buffer is a parameter.
- `nictag_free_etherstubs` and the `malloc`/`strncpy` copies of the
  etherstub names: memory management. `strncpy(s, ..., i)` at
  `common/nictag/nictag.c:210, 218` copies the characters but no NUL, so the
  C copies are not terminated, and a caller that prints one with `%s` reads
  past its allocation. The model's names are ordinary strings, the names the
  code evidently intends.
- Failed allocations (`nvlist_alloc`, `malloc` returning NULL): not
  modelled, because allocation always succeeds here.
- Diagnostics (`fprintf`, `warn`): output only.
- Characters: each Dafny `char` stands for one byte (0 to 255) of the C
  text, and the sizes `LineSize`, `StubSize`, `MacBufSize` and `TypeSize`
  count bytes. The model does not decode multi-byte encodings: decoded
  Unicode text, where one character can take several bytes, is not modelled.
- Config: keys and values are the C strings before their NUL, so they hold
  no NUL. `GetEtherstubs` and `FindChar` rely on this, because they do not
  stop at a NUL the way `strchr` does. `ParsedWellFormed` proves it for
  every parsed configuration.
- The iteration order of nvlists. `GetTags` visits the keys in any order.
  No tag comes from two keys, so the result is the same whatever the order.
- The `smbios_*` calls and `do_struct` in `sysinfo/sysinfo_smbios.c`: these
  call a foreign library. The values they read are parameters.
- The little-endian order of the first UUID fields in SMBIOS: the code does
  not apply it, so the model does not either.
- StrToMac: accepts only six non-empty hexadecimal fields with values up to
  255 and nothing after the sixth. It does not model these parts of
  `sscanf`:
  - white space before any field, which `%x` skips, so the C code also
    accepts `00: 11:22:33:44:55`;
  - a `0x` prefix or a sign;
  - values above 255, which `%02x` would print with more digits;
  - the `%c` that has no matching argument.
- GetTags: the `tag[1024]` buffer is not modelled. A configuration line is
  shorter than 1024 characters, so a key always fits.
- GetTags: keys shorter than four characters are not tag keys. In C,
  `name + (namelen - 4)` points before the name.
- FormatUuid: requires at most 125 UUID bytes. This is all that `uuid[256]`
  holds; more would overflow the buffer in C.
- DoSystem: requires at most 125 UUID bytes, for the same reason.
- GetEtherstubs: requires an `etherstub` value shorter than 1023 characters.
  This bound is sufficient, but the C code needs less. It needs at most 1022
  commas, for the 1024-entry pointer array. It needs each segment that a
  comma ends to be under 1024 characters, for `stubname[1024]`. The last
  segment never goes through `stubname` (`common/nictag/nictag.c:216-219`).
  So longer values can work in C and are not modelled. Every parsed
  configuration meets the bound (`ParsedWellFormed`).
- CpuType: requires a version string without NUL. The SMBIOS strings are C
  strings, and a `string` here holds the characters before the NUL.
- DoProcessorCommon: requires a version string without NUL, for the same
  reason.
- SystemCommon: the C code tests `s[0] != '\0'`, and the model tests
  `value != []`. They agree because every SMBIOS `string` here holds the
  characters of a C string before its NUL, so it has no NUL. The `Smbios`
  module states this convention once. Only `CpuType` and
  `DoProcessorCommon` also require it, because they scan a buffer for the
  NUL.
- Smbios.TotalCores: Core Count and Core Count 2 are taken as 16-bit
  values. The field widths come from `smbios.h`, which is not part of this
  model.
