/**
 * The nictag library: it parses the USB key configuration (`key=value`
 * lines) into a string map, derives the nic tag map (tag name to normalised
 * MAC address) from the `<tag>_nic` keys, and splits the `etherstub` value
 * into the list of etherstub names.
 *
 * The libnvpair lists of the C code are `map<string, string>` here; a list
 * created with NV_UNIQUE_NAME keeps one value per name, the last one added.
 * Each `char` stands for one byte (0 to 255) of the C text, so LineSize,
 * StubSize and MacBufSize count bytes. The keys and values of a `Config`
 * are the C strings before their NUL, so they hold no NUL; every parsed
 * configuration has that property (WellFormed, ParsedWellFormed).
 */
module NicTag {

  import opened Options
  import opened Strings

  /** Size of the C buffers `line`, `key` and `value`. */
  const LineSize := 1024

  /** Size of the C buffer `stubname` and of the heap array of etherstub pointers. */
  const StubSize := 1024

  /** Size of the C buffer `mac_normalized`. */
  const MacBufSize := 1024

  /** ETHERADDRL: the number of octets in a MAC address. */
  const MacLen := 6

  type Config = map<string, string>

  // ===========================================================================
  // nictag_parse_config

  /**
   * The lines of a C string: the segments that a '\n' terminates, in order.
   * Whatever follows the last '\n' is not a line.
   */
  function Lines(s: string): (lines: seq<string>)
  {
    var parts := Split(s, '\n');
    parts[..|parts| - 1]
  }

  /**
   * The entry one line adds to the configuration, if any. Over-long lines,
   * empty lines, comments and lines without '=' add nothing. The key is the
   * text before the first '='; the value is the rest of the line with every
   * '=' dropped.
   */
  function ParseLine(line: string): (entry: Option<(string, string)>)
  {
    if |line| >= LineSize || |line| == 0 || line[0] == '#' then None else KeyValue(line)
  }

  /** The key and value of a line: the text before the first '=', and the text after it without '='. */
  function KeyValue(line: string): (entry: Option<(string, string)>)
  {
    if '=' !in line then None
    else
      var eq := IndexOf(line, '=');
      Some((line[..eq], Without(line[eq + 1..], '=')))
  }

  /** `nvlist_add_string` on a list with unique names, for an entry if there is one. */
  function Insert(m: Config, entry: Option<(string, string)>): (m': Config)
    ensures entry.None? ==> m' == m
    ensures entry.Some? ==> entry.value.0 in m' && m'[entry.value.0] == entry.value.1
    ensures entry.Some? ==> m'.Keys == m.Keys + {entry.value.0}
    ensures entry.Some? ==> forall k :: k in m && k != entry.value.0 ==> m'[k] == m[k]
  {
    match entry
    case None => m
    case Some((k, v)) => m[k := v]
  }

  /** The configuration `m` becomes after the entries of `lines` are added in order. */
  function Store(m: Config, lines: seq<string>): Config
    decreases |lines|
  {
    if lines == [] then m else Store(Insert(m, ParseLine(lines[0])), lines[1..])
  }

  /** The configuration that the text buffer `buf` describes. */
  function ConfigOf(buf: seq<char>): Config
  {
    Store(map[], Lines(CStr(buf)))
  }

  /** The first line of a text ends at its first '\n'; the rest of the text holds the other lines. */
  lemma LinesStep(s: string, k: nat)
    requires k < |s| && s[k] == '\n' && '\n' !in s[..k]
    ensures Lines(s) == [s[..k]] + Lines(s[k + 1..])
  {
    SplitStep(s, '\n', k);
  }

  /**
   * Reads the line `buf[index..offset]` into `line`, then its key and value
   * into `key` and `value` (the body of the `while` loop of
   * nictag_parse_config), and returns the entry the line adds, if any.
   */
  method ParseLineAt(buf: seq<char>, index: nat, offset: nat) returns (entry: Option<(string, string)>)
    requires index <= offset <= |CStr(buf)|
    ensures entry == ParseLine(CStr(buf)[index..offset])
  {
    CStrSlice(buf, index, offset);
    ghost var text := buf[index..offset];
    assert CStr(buf)[index..offset] == text;
    var len := offset - index;
    if len >= LineSize {
      // an over-long line is reported and skipped
      ParseLineSkipped(text);
      return None;
    }

    // the line goes into its own NUL-terminated buffer
    var line := CopyLine(buf, index, len);
    assert line[..len] == text;

    // an empty line or a comment adds nothing
    if len == 0 || line[0] == '#' {
      assert len == 0 || text[0] == '#';
      ParseLineSkipped(text);
      return None;
    }

    // split the line at its first '='
    ParseLineKeyed(text);
    entry := SplitKeyValue(line, len);
  }

  /** A fresh line buffer holding `buf[index..index + len]` and a NUL. */
  method CopyLine(buf: seq<char>, index: nat, len: nat) returns (line: array<char>)
    requires index + len <= |buf| && len < LineSize
    ensures fresh(line) && line.Length == LineSize
    ensures line[..len] == buf[index..index + len] && line[len] == '\0'
  {
    line := new char[LineSize];
    var i := 0;
    while i < len
      invariant 0 <= i <= len
      invariant forall x :: 0 <= x < i ==> line[x] == buf[index + x]
    {
      line[i] := buf[index + i];
      i := i + 1;
    }
    line[len] := '\0';
  }

  /**
   * Copies the characters of `line[..len]` before the first '=' into `key`
   * and the others, except '=', into `value`, and returns the two C strings;
   * none when the line has no '='.
   */
  method SplitKeyValue(line: array<char>, len: nat) returns (entry: Option<(string, string)>)
    requires len < line.Length == LineSize && '\0' !in line[..len]
    ensures entry == KeyValue(line[..len])
  {
    var key := new char[LineSize];
    var value := new char[LineSize];
    var isKey, j, eq := ScanLine(line, len, key, value);
    if isKey {
      // a line without '=' is reported and adds nothing
      return None;
    }
    ghost var scanned := value[..];
    value[j] := '\0';
    assert value[..] == scanned[j := '\0'];
    KeyValueOfScan(line[..len], key[..], scanned, j, eq);
    var k := ReadCString(key);
    var v := ReadCString(value);
    entry := Some((k, v));
  }

  /**
   * What the character loop of nictag_parse_config has done after the first
   * `i` characters of the line `l`: while no '=' has been seen (`isKey`) they
   * are all in `k`; after the first '=', at `eq`, `k` holds the key and a NUL
   * at `eq`, and `v[..j]` holds the characters after it except '='.
   */
  ghost predicate Scanned(l: string, k: seq<char>, v: seq<char>, i: nat, isKey: bool, j: nat, eq: nat)
  {
    i <= |l| < |k| && j <= i && |l| < |v| &&
    (isKey <==> '=' !in l[..i]) &&
    (isKey ==> j == 0 && forall x :: 0 <= x < i ==> k[x] == l[x]) &&
    (!isKey ==> eq < i && l[eq] == '=' && (forall x :: 0 <= x < eq ==> l[x] != '=' && k[x] == l[x]) && k[eq] == '\0') &&
    (!isKey ==> v[..j] == Without(l[eq + 1..i], '='))
  }

  /** The first '=' ends the key: a NUL goes into `k` in its place. */
  lemma ScanFirstEq(l: string, k: seq<char>, v: seq<char>, i: nat, j: nat, eq: nat)
    requires Scanned(l, k, v, i, true, j, eq) && i < |l| && l[i] == '='
    ensures Scanned(l, k[i := '\0'], v, i + 1, false, j, i)
  {
    assert l[..i + 1] == l[..i] + ['='];
    assert l[i + 1..i + 1] == [];
  }

  /** A later '=' puts a NUL into `k` and nothing into `v`. */
  lemma ScanLaterEq(l: string, k: seq<char>, v: seq<char>, i: nat, j: nat, eq: nat)
    requires Scanned(l, k, v, i, false, j, eq) && i < |l| && l[i] == '='
    ensures Scanned(l, k[i := '\0'], v, i + 1, false, j, eq)
  {
    var k' := k[i := '\0'];
    assert l[..i + 1][eq] == '=';
    assert forall x :: 0 <= x < eq ==> k'[x] == k[x];
    assert k'[eq] == k[eq];
    var w := l[eq + 1..i];
    assert l[eq + 1..i + 1] == w + ['='];
    WithoutSnoc(w, '=', '=');
  }

  /** Before the first '=', a character goes into `k`. */
  lemma ScanKeyChar(l: string, k: seq<char>, v: seq<char>, i: nat, j: nat, eq: nat)
    requires Scanned(l, k, v, i, true, j, eq) && i < |l| && l[i] != '='
    ensures Scanned(l, k[i := l[i]], v, i + 1, true, j, eq)
  {
    assert l[..i + 1] == l[..i] + [l[i]];
  }

  /** After the first '=', a character other than '=' goes into `v` at `j`. */
  lemma ScanValueChar(l: string, k: seq<char>, v: seq<char>, i: nat, j: nat, eq: nat)
    requires Scanned(l, k, v, i, false, j, eq) && i < |l| && l[i] != '='
    ensures Scanned(l, k, v[j := l[i]], i + 1, false, j + 1, eq)
  {
    assert l[..i + 1] == l[..i] + [l[i]];
    assert l[eq + 1..i + 1] == l[eq + 1..i] + [l[i]];
    WithoutSnoc(l[eq + 1..i], l[i], '=');
    assert v[j := l[i]][..j + 1] == v[..j] + [l[i]];
  }

  /**
   * After the whole line, with a NUL after the value, the two C strings are
   * the key and the value of `KeyValue`.
   */
  lemma KeyValueOfScan(l: string, k: seq<char>, v: seq<char>, j: nat, eq: nat)
    requires Scanned(l, k, v, |l|, false, j, eq) && '\0' !in l
    ensures KeyValue(l) == Some((CStr(k), CStr(v[j := '\0'])))
  {
    assert l[..|l|] == l;
    IndexOfUnique(l, '=', eq);
    assert k[..eq] == l[..eq];
    CStrTerminated(k, eq);
    var v' := v[j := '\0'];
    assert v'[..j] == v[..j];
    assert '\0' !in v[..j] by {
      var rest := l[eq + 1..];
      assert '\0' !in rest by {
        forall x | 0 <= x < |rest| ensures rest[x] != '\0' { assert rest[x] == l[eq + 1 + x]; }
      }
      NoneWithout(rest, '=', '\0');
    }
    CStrTerminated(v', j);
  }

  /**
   * The character loop of nictag_parse_config: everything before the first
   * '=' goes to `key`, each '=' puts a NUL into `key`, and every other
   * character after the first '=' goes to `value` at the moving index `j`.
   */
  method ScanLine(line: array<char>, len: nat, key: array<char>, value: array<char>)
    returns (isKey: bool, j: nat, ghost eq: nat)
    requires len < line.Length && len < key.Length && len < value.Length
    requires key != line && value != line && key != value
    modifies key, value
    ensures Scanned(line[..len], key[..], value[..], len, isKey, j, eq)
  {
    ghost var l := line[..len];
    isKey, j, eq := true, 0, 0;
    var i := 0;
    while i < len
      invariant 0 <= i <= len
      invariant Scanned(l, key[..], value[..], i, isKey, j, eq)
    {
      isKey, j, eq := ScanChar(l, line[i], key, value, i, isKey, j, eq);
      i := i + 1;
    }
  }

  /** One turn of the character loop: `c` is the `i`th character of `l`. */
  method ScanChar(ghost l: string, c: char, key: array<char>, value: array<char>,
                  i: nat, isKey: bool, j: nat, ghost eq: nat)
    returns (isKey': bool, j': nat, ghost eq': nat)
    requires i < |l| && c == l[i] && key != value
    requires Scanned(l, key[..], value[..], i, isKey, j, eq)
    modifies key, value
    ensures Scanned(l, key[..], value[..], i + 1, isKey', j', eq')
  {
    ghost var k0, v0 := key[..], value[..];
    isKey', j', eq' := false, j, eq;
    if c == '=' {
      if isKey {
        ScanFirstEq(l, k0, v0, i, j, eq);
        eq' := i;
      } else {
        ScanLaterEq(l, k0, v0, i, j, eq);
      }
      SetChar(key, i, '\0');
      assert value[..] == v0;
    } else if isKey {
      ScanKeyChar(l, k0, v0, i, j, eq);
      isKey' := true;
      SetChar(key, i, c);
      assert value[..] == v0;
    } else {
      ScanValueChar(l, k0, v0, i, j, eq);
      SetChar(value, j, c);
      assert key[..] == k0;
      j' := j + 1;
    }
  }

  /**
   * `a[i] = c`. A proof helper with no counterpart of its own in the C code:
   * it states the new array contents as one sequence update.
   */
  method SetChar(a: array<char>, i: nat, c: char)
    requires i < a.Length
    modifies a
    ensures a[..] == old(a[..])[i := c]
  {
    a[i] := c;
  }

  /**
   * nictag_parse_config: walks the buffer from one '\n' to the next and adds
   * the entry of every line to a fresh configuration.
   */
  method ParseConfig(buf: seq<char>) returns (nvl: Config)
    ensures nvl == ConfigOf(buf)
  {
    ghost var t := CStr(buf);
    nvl := map[];
    var index := 0;
    var p := StrChr(buf, 0, '\n');
    while p.Some?
      invariant index <= |t|
      invariant p.Some? ==> index <= p.value < |t| && t[p.value] == '\n' && '\n' !in t[index..p.value]
      invariant p.None? ==> '\n' !in t[index..]
      invariant Store(nvl, Lines(t[index..])) == ConfigOf(buf)
      decreases |t| - index
    {
      var offset := p.value;
      StoreFrom(nvl, t, index, offset);
      var entry := ParseLineAt(buf, index, offset);
      if entry.Some? {
        // add the entry, replacing any earlier value of the key
        nvl := nvl[entry.value.0 := entry.value.1];
      }
      index := offset + 1;
      p := StrChr(buf, index, '\n');
    }
    assert Lines(t[index..]) == [];
  }

  /** One turn of the loop of nictag_parse_config: the line from `index` to the '\n' at `offset`. */
  lemma StoreFrom(m: Config, t: string, index: nat, offset: nat)
    requires index <= offset < |t| && t[offset] == '\n' && '\n' !in t[index..offset]
    ensures Store(m, Lines(t[index..])) == Store(Insert(m, ParseLine(t[index..offset])), Lines(t[offset + 1..]))
  {
    SplitFrom(t, '\n', index, offset);
    var parts := Split(t[offset + 1..], '\n');
    assert Lines(t[index..]) == [t[index..offset]] + parts[..|parts| - 1];
  }

  // ---------------------------------------------------------------------------
  // Properties of the parsed configuration

  /**
   * Line by line: a line and its '\n' contribute exactly that line's entry,
   * and parsing carries on with the text after the '\n'.
   */
  lemma LineByLine(m: Config, line: string, rest: string)
    requires '\n' !in line
    ensures Store(m, Lines(line + "\n" + rest)) == Store(Insert(m, ParseLine(line)), Lines(rest))
  {
    var s := line + "\n" + rest;
    assert s[..|line|] == line;
    assert s[|line| + 1..] == rest;
    LinesStep(s, |line|);
  }

  /** The lines that add nothing: over-long, empty, comment, or without '='. */
  lemma SkippedLines(line: string)
    ensures ParseLine(line).None? <==>
      (|line| >= LineSize || line == "" || line[0] == '#' || '=' !in line)
  {
  }

  /**
   * A line that adds an entry is the key, a '=', and a remainder; the key
   * has no '=' and the value is the remainder without its '=' characters.
   */
  lemma ParsedEntry(line: string)
    requires ParseLine(line).Some?
    ensures var (k, v) := ParseLine(line).value;
      line == k + "=" + line[|k| + 1..] && '=' !in k && v == Without(line[|k| + 1..], '=')
  {
    var eq := IndexOf(line, '=');
    assert line == line[..eq] + "=" + line[eq + 1..];
  }

  /**
   * Conversely, a key without '=' (empty, or not starting with '#'), a '='
   * and a remainder that fit the line buffer parse to that key and the
   * remainder without its '=' characters.
   */
  lemma EntryOfLine(k: string, rest: string)
    requires '=' !in k && (k == [] || k[0] != '#')
    requires |k| + 1 + |rest| < LineSize
    ensures ParseLine(k + "=" + rest) == Some((k, Without(rest, '=')))
  {
    var line := k + "=" + rest;
    var n := |k|;
    assert line[..n] == k && line[n] == '=' && line[n + 1..] == rest;
    assert line[0] != '#' by {
      if k == [] { assert line[0] == '='; } else { assert line[0] == k[0]; }
    }
    ParseLineKeyed(line);
    KeyValueAt(line, n);
  }

  /** An over-long line, an empty line and a comment add nothing. */
  lemma ParseLineSkipped(line: string)
    requires |line| >= LineSize || line == [] || line[0] == '#'
    ensures ParseLine(line) == None
  {
  }

  /** A line that adds an entry fits the buffer and is not a comment. */
  lemma ParseLineKept(line: string)
    requires ParseLine(line).Some?
    ensures 0 < |line| < LineSize && line[0] != '#'
  {
  }

  /** A line that fits the buffer and is not a comment is split at its first '='. */
  lemma ParseLineKeyed(line: string)
    requires 0 < |line| < LineSize && line[0] != '#'
    ensures ParseLine(line) == KeyValue(line)
  {
  }

  /** The first '=' of a line, at `n`, splits it into its key and value. */
  lemma KeyValueAt(line: string, n: nat)
    requires n < |line| && line[n] == '=' && '=' !in line[..n]
    ensures KeyValue(line) == Some((line[..n], Without(line[n + 1..], '=')))
  {
    IndexOfUnique(line, '=', n);
  }

  /**
   * Text after the last '\n' adds nothing to the configuration, whatever it
   * holds (an unterminated final line is ignored).
   */
  lemma UnterminatedTailIgnored(text: string, tail: string)
    requires '\0' !in text
    requires text == [] || text[|text| - 1] == '\n'
    requires '\n' !in tail
    ensures ConfigOf(text + tail) == ConfigOf(text)
  {
    CStrAppend(text, tail);
    CStrNoNul(text);
    var t := CStr(tail);
    assert '\n' !in t by {
      forall i | 0 <= i < |t| ensures t[i] != '\n' {
        assert t[i] == tail[i];
      }
    }
    LinesDropTail(text, t);
  }

  /** `Lines` ignores a '\n'-free tail after the last '\n'. */
  lemma LinesDropTail(text: string, t: string)
    requires text == [] || text[|text| - 1] == '\n'
    requires '\n' !in t
    ensures Lines(text + t) == Lines(text)
  {
    assert Split(t, '\n') == [t];
    if text == [] {
      assert text + t == t;
    } else {
      var a := text[..|text| - 1];
      assert text == a + ['\n'] + [];
      assert text + t == a + ['\n'] + t;
      SplitAppend(a, t, '\n');
      SplitAppend(a, [], '\n');
      assert Split([], '\n') == [[]];
    }
  }

  /** Whether `line` adds an entry for `key`. */
  predicate HasKey(line: string, key: string)
  {
    ParseLine(line).Some? && ParseLine(line).value.0 == key
  }

  /**
   * Last write wins: when line `i` is the last line with key `k`, the
   * configuration maps `k` to that line's value.
   */
  lemma {:induction false} LastWins(m: Config, lines: seq<string>, i: nat, k: string, v: string)
    requires i < |lines| && ParseLine(lines[i]) == Some((k, v))
    requires forall j :: i < j < |lines| ==> !HasKey(lines[j], k)
    ensures k in Store(m, lines) && Store(m, lines)[k] == v
    decreases |lines|
  {
    var m' := Insert(m, ParseLine(lines[0]));
    if i == 0 {
      NoLaterKey(m', lines[1..], k);
    } else {
      LastWins(m', lines[1..], i - 1, k, v);
    }
  }

  /** Lines without key `k` leave what the configuration holds for `k` alone. */
  lemma {:induction false} NoLaterKey(m: Config, lines: seq<string>, k: string)
    requires forall j :: 0 <= j < |lines| ==> !HasKey(lines[j], k)
    ensures (k in Store(m, lines) <==> k in m) && (k in m ==> Store(m, lines)[k] == m[k])
    decreases |lines|
  {
    if lines != [] {
      assert !HasKey(lines[0], k);
      NoLaterKey(Insert(m, ParseLine(lines[0])), lines[1..], k);
    }
  }

  /** Every key of the configuration comes from some line of the text. */
  lemma {:induction false} KeysFromLines(m: Config, lines: seq<string>, k: string)
    requires k in Store(m, lines)
    ensures k in m || exists j :: 0 <= j < |lines| && HasKey(lines[j], k)
    decreases |lines|
  {
    if lines != [] && k !in m {
      var m' := Insert(m, ParseLine(lines[0]));
      if k !in m' {
        KeysFromLines(m', lines[1..], k);
        var j :| 0 <= j < |lines[1..]| && HasKey(lines[1..][j], k);
        assert HasKey(lines[1 + j], k);
      } else {
        assert HasKey(lines[0], k);
      }
    }
  }

  /**
   * What every parsed entry satisfies: the key holds no '=', no '\n' and no
   * NUL and, when not empty, does not start with '#'; the value holds no '=',
   * no '\n' and no NUL; both fit the C buffers with room for the '=' and the
   * NUL. Being NUL-free, both are whole C strings.
   */
  ghost predicate WellFormedEntry(k: string, v: string)
  {
    '=' !in k && '\n' !in k && '\0' !in k && (k == [] || k[0] != '#') && |k| < LineSize - 1 &&
    '=' !in v && '\n' !in v && '\0' !in v && |v| < LineSize - 1
  }

  /** Every entry of the configuration is well formed. */
  ghost predicate WellFormed(m: Config)
  {
    forall k :: k in m ==> WellFormedEntry(k, m[k])
  }

  /** The entry of a line free of '\n' and NUL is well formed. */
  lemma LineWellFormed(line: string)
    requires '\n' !in line && '\0' !in line && ParseLine(line).Some?
    ensures WellFormedEntry(ParseLine(line).value.0, ParseLine(line).value.1)
  {
    ParseLineKept(line);
    ParsedEntry(line);
    var k, v := ParseLine(line).value.0, ParseLine(line).value.1;
    var rest := line[|k| + 1..];
    assert k == [] || k[0] == line[0];
    assert '\n' !in k && '\0' !in k by {
      forall x | 0 <= x < |k| ensures k[x] != '\n' && k[x] != '\0' { assert k[x] == line[x]; }
    }
    assert '\n' !in rest && '\0' !in rest by {
      forall x | 0 <= x < |rest| ensures rest[x] != '\n' && rest[x] != '\0' { assert rest[x] == line[|k| + 1 + x]; }
    }
    NoneWithout(rest, '=', '\n');
    NoneWithout(rest, '=', '\0');
  }

  /** Adding the entries of lines free of '\n' and NUL keeps a configuration well formed. */
  lemma {:induction false} StoreWellFormed(m: Config, lines: seq<string>)
    requires WellFormed(m)
    requires forall j :: 0 <= j < |lines| ==> '\n' !in lines[j] && '\0' !in lines[j]
    ensures WellFormed(Store(m, lines))
    decreases |lines|
  {
    if lines != [] {
      var entry := ParseLine(lines[0]);
      var m' := Insert(m, entry);
      assert WellFormed(m') by {
        if entry.Some? {
          LineWellFormed(lines[0]);
        }
      }
      assert Store(m, lines) == Store(m', lines[1..]);
      StoreWellFormed(m', lines[1..]);
    }
  }

  /** Every configuration parsed from text is well formed. */
  lemma ParsedWellFormed(buf: seq<char>)
    ensures WellFormed(ConfigOf(buf))
  {
    var parts := Split(CStr(buf), '\n');
    SplitSegments(CStr(buf), '\n');
    SplitSegmentsOmit(CStr(buf), '\n', '\0');
    StoreWellFormed(map[], parts[..|parts| - 1]);
  }

  /**
   * Two lines for the same key, as in "k=1\nk=2\n": the configuration
   * holds that key alone, with the later line's value. `EntryOfLine` gives
   * the lines `k=v` that parse this way.
   */
  lemma DuplicateKey(l1: string, l2: string, k: string, v1: string, v2: string)
    requires '\n' !in l1 && '\n' !in l2 && '\0' !in l1 && '\0' !in l2
    requires ParseLine(l1) == Some((k, v1)) && ParseLine(l2) == Some((k, v2))
    ensures ConfigOf(l1 + "\n" + l2 + "\n") == map[k := v2]
  {
    ConfigOfTwoLines(l1, l2);
    StoreTwo(map[], l1, l2);
    assert map[k := v1][k := v2] == map[k := v2];
  }

  /** The configuration of two '\n'-terminated lines. */
  lemma ConfigOfTwoLines(l1: string, l2: string)
    requires '\n' !in l1 && '\n' !in l2 && '\0' !in l1 && '\0' !in l2
    ensures ConfigOf(l1 + "\n" + l2 + "\n") == Store(map[], [l1, l2])
  {
    var buf := l1 + "\n" + l2 + "\n";
    assert '\0' !in buf;
    CStrNoNul(buf);
    TwoLines(l1, l2);
  }

  /** Storing two lines is two insertions, in order. */
  lemma StoreTwo(m: Config, l1: string, l2: string)
    ensures Store(m, [l1, l2]) == Insert(Insert(m, ParseLine(l1)), ParseLine(l2))
  {
    var m1 := Insert(m, ParseLine(l1));
    assert [l1, l2][1..] == [l2];
    assert Store(m, [l1, l2]) == Store(m1, [l2]);
    assert [l2][1..] == [];
    assert Store(m1, [l2]) == Store(Insert(m1, ParseLine(l2)), []);
  }

  /** Two '\n'-terminated lines. */
  lemma TwoLines(a: string, b: string)
    requires '\n' !in a && '\n' !in b
    ensures Lines(a + "\n" + b + "\n") == [a, b]
  {
    var s := a + "\n" + b + "\n";
    assert s[..|a|] == a && s[|a| + 1..] == b + "\n";
    LinesStep(s, |a|);
    var t := b + "\n";
    assert t[..|b|] == b && t[|b| + 1..] == [];
    LinesStep(t, |b|);
    assert Split([], '\n') == [[]];
  }

  // ===========================================================================
  // str2mac and mac2str

  /** Six octets. */
  type MacAddress = m: seq<uint8> | |m| == MacLen witness [0, 0, 0, 0, 0, 0]

  /** One field of a MAC address as `str2mac` accepts it: hexadecimal digits denoting a byte. */
  predicate IsOctet(g: string)
  {
    |g| >= 1 && AllHex(g) && HexValue(g) < 256
  }

  /** Whether `s` is six ':'-separated octets with nothing after the sixth. */
  predicate IsMac(s: string)
  {
    var groups := Split(s, ':');
    |groups| == MacLen && forall i :: 0 <= i < |groups| ==> IsOctet(groups[i])
  }

  /** The octets that the six fields `groups` denote. */
  function OctetValues(groups: seq<string>): (m: MacAddress)
    requires |groups| == MacLen && forall i :: 0 <= i < |groups| ==> IsOctet(groups[i])
  {
    seq(MacLen, i requires 0 <= i < MacLen && IsOctet(groups[i]) => HexValue(groups[i]) as uint8)
  }

  /** str2mac: reads `s` as a MAC address. */
  function StrToMac(s: string): (mac: Option<MacAddress>)
  {
    if IsMac(s) then Some(OctetValues(Split(s, ':'))) else None
  }

  /** The `%02x` renderings of the octets of `m`, in order. */
  function Octets(m: seq<uint8>): (r: seq<string>)
    ensures |r| == |m|
  {
    seq(|m|, i requires 0 <= i < |m| => Hex2(m[i]))
  }

  /** The canonical text of a MAC address: six `%02x` octets joined by ':'. */
  function MacText(m: MacAddress): string
  {
    Join(Octets(m), ':')
  }

  /** Accepted text is six octet fields joined by ':' and denotes their values. */
  lemma StrToMacAccepted(s: string)
    requires StrToMac(s).Some?
    ensures var groups := Split(s, ':');
      |groups| == MacLen && (forall i :: 0 <= i < MacLen ==> IsOctet(groups[i])) &&
      Join(groups, ':') == s &&
      forall i :: 0 <= i < MacLen ==> StrToMac(s).value[i] == HexValue(groups[i])
  {
    JoinSplit(s, ':');
  }

  /** Conversely, any six octet fields joined by ':' are accepted, denoting their values. */
  lemma StrToMacOfOctets(groups: seq<string>)
    requires |groups| == MacLen && forall i :: 0 <= i < MacLen ==> IsOctet(groups[i])
    ensures StrToMac(Join(groups, ':')) == Some(OctetValues(groups))
  {
    forall i | 0 <= i < MacLen ensures ':' !in groups[i] {
      var g := groups[i];
      assert forall x :: 0 <= x < |g| ==> IsHexDigit(g[x]);
    }
    SplitJoin(groups, ':');
  }

  /** Rendering a MAC address and reading it back gives the same six octets. */
  lemma MacRoundTrip(m: MacAddress)
    ensures StrToMac(MacText(m)) == Some(m)
  {
    var groups := Octets(m);
    forall i | 0 <= i < MacLen ensures IsOctet(groups[i]) && HexValue(groups[i]) == m[i] {
      HexValueOfHex2(m[i]);
    }
    StrToMacOfOctets(groups);
    assert OctetValues(groups) == m;
  }

  /**
   * The joined `%02x` octets of `m` are 3 |m| - 1 characters: a lower-case
   * hexadecimal digit everywhere except at every third position, which holds ':'.
   */
  lemma {:induction false} OctetsShape(m: seq<uint8>)
    requires |m| >= 1
    ensures |Join(Octets(m), ':')| == 3 * |m| - 1
    ensures forall i :: 0 <= i < 3 * |m| - 1 ==>
      if i % 3 == 2 then Join(Octets(m), ':')[i] == ':' else IsLowerHexDigit(Join(Octets(m), ':')[i])
  {
    var n := |m|;
    if n == 1 {
      assert Octets(m) == [Hex2(m[0])];
    } else {
      var init := m[..n - 1];
      OctetsShape(init);
      assert Octets(m) == Octets(init) + [Hex2(m[n - 1])];
      JoinSnoc(Octets(init), Hex2(m[n - 1]), ':');
    }
  }

  /**
   * The canonical text is 17 characters: a lower-case hexadecimal digit
   * everywhere except at every third position, which holds ':'.
   */
  lemma MacTextCanonical(m: MacAddress)
    ensures |MacText(m)| == 17
    ensures forall i :: 0 <= i < 17 ==>
      if i % 3 == 2 then MacText(m)[i] == ':' else IsLowerHexDigit(MacText(m)[i])
  {
    OctetsShape(m);
  }

  /** The text of an address holds no NUL. */
  lemma MacTextNoNul(m: MacAddress)
    ensures '\0' !in MacText(m)
  {
    MacTextCanonical(m);
    var t := MacText(m);
    forall x | 0 <= x < |t| ensures t[x] != '\0' {
      assert x % 3 == 2 ==> t[x] == ':';
    }
  }

  /** The text of the first `i + 2` octets extends that of the first `i + 1` by ':' and an octet. */
  lemma MacTextStep(m: MacAddress, i: nat)
    requires i < MacLen - 1
    ensures Join(Octets(m[..i + 2]), ':') == Join(Octets(m[..i + 1]), ':') + ([':'] + Hex2(m[i + 1]))
  {
    var parts := Octets(m[..i + 1]);
    assert Octets(m[..i + 2]) == parts + [Hex2(m[i + 1])];
    JoinSnoc(parts, Hex2(m[i + 1]), ':');
  }

  /**
   * mac2str: prints the six octets with `sprintf` into a buffer at a moving
   * offset `n` and returns the C string in that buffer.
   */
  method MacToStr(macaddr: MacAddress) returns (s: string)
    ensures s == MacText(macaddr)
  {
    var buf := new char[MacBufSize];
    var n := WriteString(buf, 0, Hex2(macaddr[0]));
    assert buf[..n] == Join(Octets(macaddr[..1]), ':') by {
      assert Octets(macaddr[..1]) == [Hex2(macaddr[0])];
    }
    var i := 0;
    while i < MacLen - 1
      invariant 0 <= i <= MacLen - 1
      invariant n == 3 * i + 2
      invariant buf[..n] == Join(Octets(macaddr[..i + 1]), ':')
      invariant buf[n] == '\0'
    {
      MacTextStep(macaddr, i);
      n := WriteString(buf, n, [':'] + Hex2(macaddr[i + 1]));
      i := i + 1;
    }
    assert macaddr[..MacLen] == macaddr;
    MacTextNoNul(macaddr);
    CStrTerminated(buf[..], n);
    s := ReadCString(buf);
  }

  // ===========================================================================
  // nictag_get_tags

  /** Whether `name` has the form `<tag>_nic`. */
  predicate IsTagKey(name: string)
  {
    |name| >= 4 && name[|name| - 4..] == "_nic"
  }

  /** The tag of a `<tag>_nic` key: the key without its last four characters. */
  function TagName(name: string): (tag: string)
    requires IsTagKey(name)
    ensures tag + "_nic" == name
  {
    name[..|name| - 4]
  }

  /** The key "_nic" alone passes the test and names the empty tag. */
  lemma BareNicKey()
    ensures IsTagKey("_nic") && TagName("_nic") == ""
  {
  }

  /** Distinct `_nic` keys name distinct tags. */
  lemma TagNameInjective(a: string, b: string)
    requires IsTagKey(a) && IsTagKey(b) && TagName(a) == TagName(b)
    ensures a == b
  {
  }

  /**
   * nictag_get_tags: for every `<tag>_nic` key whose value is a MAC address,
   * maps `<tag>` to the canonical text of that address; keys whose value is
   * not a MAC address are skipped, the others still processed.
   */
  method GetTags(config: Config) returns (tags: map<string, string>)
    ensures forall k :: k in config && IsTagKey(k) && StrToMac(config[k]).Some? ==>
      TagName(k) in tags && tags[TagName(k)] == MacText(StrToMac(config[k]).value)
    ensures forall t :: t in tags ==>
      t + "_nic" in config && StrToMac(config[t + "_nic"]).Some? &&
      tags[t] == MacText(StrToMac(config[t + "_nic"]).value)
  {
    tags := map[];
    var rest := config.Keys;
    while rest != {}
      invariant rest <= config.Keys
      invariant forall k :: k in config && k !in rest && IsTagKey(k) && StrToMac(config[k]).Some? ==>
        TagName(k) in tags && tags[TagName(k)] == MacText(StrToMac(config[k]).value)
      invariant forall t :: t in tags ==>
        t + "_nic" in config && t + "_nic" !in rest && StrToMac(config[t + "_nic"]).Some? &&
        tags[t] == MacText(StrToMac(config[t + "_nic"]).value)
      decreases rest
    {
      var name :| name in rest;
      rest := rest - {name};
      var namelen := |name|;
      // only keys ending in "_nic" name a tag
      if namelen < 4 || name[namelen - 4..] != "_nic" {
        continue;
      }
      var tag := name[..namelen - 4];
      assert tag == TagName(name);
      var macNum := StrToMac(config[name]);
      if macNum.None? {
        // a value that is not a MAC address is reported and its key skipped
        continue;
      }
      var macNormalized := MacToStr(macNum.value);
      forall k | k in config && IsTagKey(k) && TagName(k) == tag ensures k == name {
        TagNameInjective(k, name);
      }
      tags := tags[tag := macNormalized];
    }
  }

  // ===========================================================================
  // nictag_get_etherstubs

  /**
   * nictag_get_etherstubs: NULL when there is no `etherstub` key; otherwise
   * the ','-separated parts of its value, in order, empty parts included.
   * The value must fit the `stubname` buffer and the part count the pointer
   * array of StubSize entries, whose last used slot holds the NULL end marker;
   * ParsedWellFormed shows that every parsed configuration does.
   */
  method GetEtherstubs(config: Config) returns (etherstubs: Option<seq<string>>)
    requires "etherstub" in config ==> |config["etherstub"]| < StubSize - 1
    ensures etherstubs.None? <==> "etherstub" !in config
    ensures etherstubs.Some? ==> etherstubs.value == Split(config["etherstub"], ',')
  {
    if "etherstub" !in config {
      return None;
    }
    var stubline := config["etherstub"];
    var stubs := new string[StubSize];
    var numstub, position := SplitStubs(stubline, stubs);
    var s := stubline[position..];  // strlen, malloc(len + 1) and strncpy of the rest
    stubs[numstub] := s;
    numstub := numstub + 1;
    assert stubs[..numstub] == stubs[..numstub - 1] + [s];
    // etherstubs[numstub++] = NULL: the end of the list is its length here
    etherstubs := Some(stubs[..numstub]);
  }

  /**
   * The comma loop of nictag_get_etherstubs: stores the text before each ','
   * of `stubline` into `etherstubs`, copying it through the `stubname`
   * buffer, and returns the count stored and the position after the last ','.
   */
  method SplitStubs(stubline: string, etherstubs: array<string>) returns (numstub: nat, position: nat)
    requires |stubline| < etherstubs.Length - 1 && etherstubs.Length == StubSize
    modifies etherstubs
    ensures numstub <= position <= |stubline| && ',' !in stubline[position..]
    ensures etherstubs[..numstub] + [stubline[position..]] == Split(stubline, ',')
  {
    var stubname := new char[StubSize];
    numstub, position := 0, 0;
    var comma := FindChar(stubline, 0, ',');
    while comma.Some?
      invariant numstub <= position <= |stubline|
      invariant comma.Some? ==> position <= comma.value < |stubline| && stubline[comma.value] == ','
                                && ',' !in stubline[position..comma.value]
      invariant comma.None? ==> ',' !in stubline[position..]
      invariant etherstubs[..numstub] + Split(stubline[position..], ',') == Split(stubline, ',')
      decreases |stubline| - position
    {
      StoreStub(stubline, position, comma.value, stubname, etherstubs, numstub);
      numstub := numstub + 1;
      position := comma.value + 1;
      comma := FindChar(stubline, position, ',');
    }
    assert Split(stubline[position..], ',') == [stubline[position..]];
  }

  /**
   * One turn of the comma loop: copies the name before the ',' at `end`
   * through `stubname` and stores it at `etherstubs[numstub]`.
   */
  method StoreStub(stubline: string, position: nat, end: nat, stubname: array<char>,
                   etherstubs: array<string>, numstub: nat)
    requires position <= end < |stubline| && stubline[end] == ',' && ',' !in stubline[position..end]
    requires numstub <= position && |stubline| < stubname.Length && |stubline| < etherstubs.Length
    requires etherstubs[..numstub] + Split(stubline[position..], ',') == Split(stubline, ',')
    modifies stubname, etherstubs
    ensures etherstubs[..numstub + 1] + Split(stubline[end + 1..], ',') == Split(stubline, ',')
  {
    var name := CopyStub(stubline, position, end, stubname);
    StubStep(stubline, etherstubs[..numstub], position, end);
    ghost var stored := etherstubs[..numstub];
    etherstubs[numstub] := name;
    assert etherstubs[..numstub + 1] == stored + [name];
  }

  /** One turn of the comma loop: the segment up to the ',' at `end` is the next etherstub. */
  lemma StubStep(t: string, done: seq<string>, start: nat, end: nat)
    requires start <= end < |t| && t[end] == ',' && ',' !in t[start..end]
    requires done + Split(t[start..], ',') == Split(t, ',')
    ensures (done + [t[start..end]]) + Split(t[end + 1..], ',') == Split(t, ',')
  {
    SplitFrom(t, ',', start, end);
  }

  /**
   * Copies `s[position..end]` into `stubname` one character at a time,
   * terminates it with a NUL, and returns the copy of the name that goes
   * into the array.
   */
  method CopyStub(s: string, position: nat, end: nat, stubname: array<char>) returns (name: string)
    requires position <= end <= |s| && end - position < stubname.Length
    modifies stubname
    ensures name == s[position..end]
    ensures stubname[..end - position] == name && stubname[end - position] == '\0'
    ensures forall x :: end - position < x < stubname.Length ==> stubname[x] == old(stubname[x])
  {
    var i, p := 0, position;
    while p < end
      invariant position <= p <= end && i == p - position
      invariant stubname[..i] == s[position..p]
      invariant forall x :: i <= x < stubname.Length ==> stubname[x] == old(stubname[x])
    {
      stubname[i] := s[p];
      i, p := i + 1, p + 1;
      assert s[position..p] == s[position..p - 1] + [s[p - 1]];
    }
    stubname[i] := '\0';
    name := stubname[..i];  // malloc(i + 1) and strncpy of the i characters
  }

  /** Searches `s` for `c` from index `from`, as `strchr` does on a NUL-free string. */
  method FindChar(s: string, from: nat, c: char) returns (r: Option<nat>)
    requires from <= |s|
    ensures r.None? ==> c !in s[from..]
    ensures r.Some? ==> from <= r.value < |s| && s[r.value] == c && c !in s[from..r.value]
  {
    var i := from;
    while i < |s| && s[i] != c
      invariant from <= i <= |s|
      invariant c !in s[from..i]
    {
      assert s[from..i + 1] == s[from..i] + [s[i]];
      i := i + 1;
    }
    r := if i < |s| then Some(i) else None;
  }

  /** The etherstub list has one entry more than the value has commas, and joins back to the value. */
  lemma EtherstubCount(value: string)
    ensures |Split(value, ',')| == multiset(value)[','] + 1
    ensures Join(Split(value, ','), ',') == value
  {
    SplitCount(value, ',');
    JoinSplit(value, ',');
  }

  /**
   * Three comma-free names joined by commas split back into those three
   * names, as "a,b,c" does; with an empty middle name, as in "a,,b", the
   * empty name stays in the list.
   */
  lemma SplitThree(a: string, b: string, c: string)
    requires ',' !in a && ',' !in b && ',' !in c
    ensures Split(a + [','] + b + [','] + c, ',') == [a, b, c]
  {
    assert a + [','] + b + [','] + c == a + [','] + (b + [','] + c);
    SplitCons(a, b + [','] + c, ',');
    SplitCons(b, c, ',');
  }
}
