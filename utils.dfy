/**
 * Model of `csvimporter/utils.py`: the set of control and format characters, their
 * removal from header names, the whitespace-before-comma fix applied to the first
 * line of an upload, and the construction of the CSV reader whose field names are
 * cleaned.
 *
 * Strings are sequences of Unicode code points. The UTF-8 decoding and encoding
 * around the regular expression, the Unicode category table and the CSV parser are
 * parameters of the model.
 */
module Utils {
  import opened Wrappers

  // ---------------------------------------------------------------------------
  // Control and format characters
  // ---------------------------------------------------------------------------

  /** The Unicode general categories, as far as this module tells them apart. */
  datatype GeneralCategory = Cc | Cf | OtherCategory(name: string)

  /** `unicodedata.category`, given as a table from code points to categories. */
  type CategoryTable = char -> GeneralCategory

  /** The scan that builds `control_chars` visits code points `0` up to, not including, `0x10000`. */
  const ScannedCodePoints: nat := 0x10000

  predicate IsControlOrFormat(g: GeneralCategory) {
    g.Cc? || g.Cf?
  }

  /** The characters the regular expression built from `control_chars` removes. */
  predicate InRemovalSet(category: CategoryTable, c: char) {
    c as int < ScannedCodePoints && IsControlOrFormat(category(c))
  }

  /**
   * The string `control_chars` as far as code point `n`: every character below `n`
   * whose category is `Cc` or `Cf`, in ascending order. Surrogate code points are no
   * characters here; their category is `Cs`, so the scan would skip them anyway.
   */
  function ControlCharsBelow(category: CategoryTable, n: nat): (r: string)
    requires n <= ScannedCodePoints
    ensures forall c :: c in r <==> c as int < n && InRemovalSet(category, c)
    ensures forall i :: 0 <= i < |r| ==> r[i] as int < n
    decreases n
  {
    if n == 0 then []
    else
      var prev := ControlCharsBelow(category, n - 1);
      var i := n - 1;
      if 0xD800 <= i < 0xE000 then prev
      else if IsControlOrFormat(category(i as char)) then prev + [i as char]
      else prev
  }

  /** `control_chars`: every `Cc` or `Cf` character below `0x10000`, and no other. */
  function ControlChars(category: CategoryTable): (r: string)
    ensures forall c :: c in r <==> InRemovalSet(category, c)
  {
    ControlCharsBelow(category, ScannedCodePoints)
  }

  /** `remove_control_chars`: deletes every character of the class `[control_chars]`. */
  function RemoveControlChars(category: CategoryTable, s: string): (r: string)
    ensures |r| <= |s|
    ensures forall i :: 0 <= i < |r| ==> !InRemovalSet(category, r[i])
    ensures forall i :: 0 <= i < |s| && !InRemovalSet(category, s[i]) ==> s[i] in r
    decreases |s|
  {
    if s == [] then []
    else if s[0] in ControlChars(category) then RemoveControlChars(category, s[1..])
    else [s[0]] + RemoveControlChars(category, s[1..])
  }

  /** The removal works character by character: removing from a concatenation removes from each part. */
  lemma {:induction false} RemoveControlCharsAppend(category: CategoryTable, a: string, b: string)
    ensures RemoveControlChars(category, a + b)
         == RemoveControlChars(category, a) + RemoveControlChars(category, b)
    decreases |a|
  {
    if a == [] {
      assert a + b == b;
    } else {
      assert (a + b)[1..] == a[1..] + b;
      assert (a + b)[0] == a[0];
      RemoveControlCharsAppend(category, a[1..], b);
    }
  }

  /**
   * Exactly the characters of the removal set go: each of them is gone, every other
   * character keeps its number of occurrences. In particular a character at or above
   * U+10000 is never removed, whatever its category.
   */
  lemma {:induction false} RemoveControlCharsCounts(category: CategoryTable, s: string)
    ensures forall c :: multiset(RemoveControlChars(category, s))[c]
                        == if InRemovalSet(category, c) then 0 else multiset(s)[c]
    ensures forall c :: c as int >= ScannedCodePoints
                        ==> multiset(RemoveControlChars(category, s))[c] == multiset(s)[c]
    decreases |s|
  {
    if s != [] {
      RemoveControlCharsCounts(category, s[1..]);
      assert s == [s[0]] + s[1..];
      assert multiset(s) == multiset{s[0]} + multiset(s[1..]);
    }
  }

  /** A string is left as it is exactly when none of its characters is in the removal set. */
  lemma {:induction false} RemoveControlCharsUnchanged(category: CategoryTable, s: string)
    ensures RemoveControlChars(category, s) == s
            <==> forall i :: 0 <= i < |s| ==> !InRemovalSet(category, s[i])
    decreases |s|
  {
    if s != [] {
      RemoveControlCharsUnchanged(category, s[1..]);
      if !InRemovalSet(category, s[0]) {
        assert forall i :: 1 <= i < |s| ==> s[i] == s[1..][i - 1];
      }
    }
  }

  /** Removing twice removes nothing more. */
  lemma RemoveControlCharsIdempotent(category: CategoryTable, s: string)
    ensures RemoveControlChars(category, RemoveControlChars(category, s))
         == RemoveControlChars(category, s)
  {
    RemoveControlCharsUnchanged(category, RemoveControlChars(category, s));
  }

  // ---------------------------------------------------------------------------
  // The whitespace-before-comma fix of the first line
  // ---------------------------------------------------------------------------

  /** `\s` of a Python 2 byte-string pattern without flags: space, `\t`, `\n`, `\r`, `\v`, `\f`. */
  predicate IsSpace(c: char) {
    c == ' ' || c == '\t' || c == '\n' || c == '\r' || c == '\U{000B}' || c == '\U{000C}'
  }

  /** `s` starts with zero or more whitespace characters followed by a comma. */
  predicate CommaAfterSpaces(s: string)
    decreases |s|
  {
    s != [] && (s[0] == ',' || (IsSpace(s[0]) && CommaAfterSpaces(s[1..])))
  }

  /** No whitespace character is immediately followed by a comma. */
  predicate NoSpaceBeforeComma(s: string) {
    forall i, j :: 0 <= i < |s| && 0 <= j < |s| && j == i + 1 ==> !(IsSpace(s[i]) && s[j] == ',')
  }

  /**
   * `re.sub('\s+,', ',', line)`, stated character by character: a whitespace
   * character is deleted exactly when only whitespace separates it from a following
   * comma, that is, when it belongs to a whitespace run directly before a comma.
   * `RegexSubSpaceComma` below is the left-to-right matching view of the same
   * substitution, and `RegexSubAgrees` shows the two are equal.
   */
  function StripSpaceBeforeComma(s: string): (r: string)
    ensures |r| <= |s|
    decreases |s|
  {
    if s == [] then []
    else if IsSpace(s[0]) && CommaAfterSpaces(s[1..]) then StripSpaceBeforeComma(s[1..])
    else [s[0]] + StripSpaceBeforeComma(s[1..])
  }

  /**
   * The fixed line has no whitespace directly before a comma; it keeps only
   * characters of the original; it is empty only when the original is; and it starts
   * like the original unless the original starts with a run before a comma.
   */
  lemma {:induction false} StripSpaceBeforeCommaShape(s: string)
    ensures var r := StripSpaceBeforeComma(s);
      NoSpaceBeforeComma(r) &&
      multiset(r) <= multiset(s) &&
      (s != [] ==> r != []) &&
      (s != [] && !CommaAfterSpaces(s) ==> r[0] == s[0])
    decreases |s|
  {
    if s != [] {
      var t := s[1..];
      StripSpaceBeforeCommaShape(t);
      var rt := StripSpaceBeforeComma(t);
      assert s == [s[0]] + t;
      assert multiset(s) == multiset{s[0]} + multiset(t);
      if !(IsSpace(s[0]) && CommaAfterSpaces(t)) {
        var r := [s[0]] + rt;
        assert StripSpaceBeforeComma(s) == r;
        assert IsSpace(s[0]) && rt != [] ==> rt[0] != ',' by {
          if IsSpace(s[0]) && rt != [] {
            assert t != [] && !CommaAfterSpaces(t);
          }
        }
        forall i, j | 0 <= i < |r| && 0 <= j < |r| && j == i + 1
          ensures !(IsSpace(r[i]) && r[j] == ',')
        {
          if i > 0 {
            assert r[i] == rt[i - 1] && r[j] == rt[j - 1];
          }
        }
      }
    }
  }

  /** Only whitespace is ever deleted: with all whitespace taken out, input and output agree. */
  function WithoutSpaces(s: string): string
    decreases |s|
  {
    if s == [] then []
    else if IsSpace(s[0]) then WithoutSpaces(s[1..])
    else [s[0]] + WithoutSpaces(s[1..])
  }

  lemma {:induction false} StripSpaceBeforeCommaDeletesOnlySpaces(s: string)
    ensures WithoutSpaces(StripSpaceBeforeComma(s)) == WithoutSpaces(s)
    decreases |s|
  {
    if s != [] {
      StripSpaceBeforeCommaDeletesOnlySpaces(s[1..]);
      var r := StripSpaceBeforeComma(s);
      if !(IsSpace(s[0]) && CommaAfterSpaces(s[1..])) {
        assert r == [s[0]] + StripSpaceBeforeComma(s[1..]);
        assert r[1..] == StripSpaceBeforeComma(s[1..]);
      }
    }
  }

  /** A line with no whitespace directly before a comma is left as it is. */
  lemma {:induction false} StripSpaceBeforeCommaFixed(s: string)
    requires NoSpaceBeforeComma(s)
    ensures StripSpaceBeforeComma(s) == s
    decreases |s|
  {
    if s != [] {
      assert NoSpaceBeforeComma(s[1..]) by {
        forall i | 0 <= i < |s[1..]| - 1
          ensures !(IsSpace(s[1..][i]) && s[1..][i + 1] == ',')
        {
          assert s[1..][i] == s[i + 1] && s[1..][i + 1] == s[i + 2];
        }
      }
      StripSpaceBeforeCommaFixed(s[1..]);
      if IsSpace(s[0]) && CommaAfterSpaces(s[1..]) {
        assert false;
      }
      assert s == [s[0]] + s[1..];
    }
  }

  /** Applying the fix twice changes nothing more. */
  lemma StripSpaceBeforeCommaIdempotent(s: string)
    ensures StripSpaceBeforeComma(StripSpaceBeforeComma(s)) == StripSpaceBeforeComma(s)
  {
    StripSpaceBeforeCommaShape(s);
    StripSpaceBeforeCommaFixed(StripSpaceBeforeComma(s));
  }

  /** Appending a character other than a comma does not change which characters go. */
  lemma {:induction false} CommaAfterSpacesSnoc(t: string, c: char)
    requires c != ','
    ensures CommaAfterSpaces(t + [c]) == CommaAfterSpaces(t)
    decreases |t|
  {
    if t != [] {
      assert (t + [c])[1..] == t[1..] + [c];
      CommaAfterSpacesSnoc(t[1..], c);
    }
  }

  /** A final character other than a comma, such as a line's `\n`, stays last. */
  lemma {:induction false} StripSpaceBeforeCommaSnoc(m: string, c: char)
    requires c != ','
    ensures StripSpaceBeforeComma(m + [c]) == StripSpaceBeforeComma(m) + [c]
    decreases |m|
  {
    var s := m + [c];
    if m == [] {
      assert s == [c];
      assert s[1..] == [];
    } else {
      assert s[0] == m[0];
      assert s[1..] == m[1..] + [c];
      CommaAfterSpacesSnoc(m[1..], c);
      StripSpaceBeforeCommaSnoc(m[1..], c);
    }
  }

  /** The length of the whitespace run `s` starts with. */
  function SpaceRunLength(s: string): (k: nat)
    ensures k <= |s|
    ensures forall i :: 0 <= i < k ==> IsSpace(s[i])
    ensures k < |s| ==> !IsSpace(s[k])
    decreases |s|
  {
    if s != [] && IsSpace(s[0]) then 1 + SpaceRunLength(s[1..]) else 0
  }

  /**
   * `re.sub('\s+,', ',', s)` as the regular-expression engine performs it: from left
   * to right, a maximal whitespace run directly followed by a comma is replaced by
   * the comma and matching resumes after it; a run followed by anything else (or by
   * nothing) does not match at any of its positions and is copied.
   */
  function RegexSubSpaceComma(s: string): string
    decreases |s|
  {
    if s == [] then []
    else
      var k := SpaceRunLength(s);
      if k == 0 then [s[0]] + RegexSubSpaceComma(s[1..])
      else if k < |s| && s[k] == ',' then "," + RegexSubSpaceComma(s[k + 1..])
      else s[..k] + RegexSubSpaceComma(s[k..])
  }

  /** A whitespace prefix directly before a comma is deleted entirely. */
  lemma {:induction false} StripSpaceRunBeforeComma(s: string, k: nat)
    requires k < |s| && s[k] == ','
    requires forall i :: 0 <= i < k ==> IsSpace(s[i])
    ensures StripSpaceBeforeComma(s) == StripSpaceBeforeComma(s[k..])
    ensures CommaAfterSpaces(s)
    decreases k
  {
    if k > 0 {
      StripSpaceRunBeforeComma(s[1..], k - 1);
      assert s[1..][k - 1..] == s[k..];
    }
  }

  /** A whitespace prefix not followed by a comma is not the start of a run before a comma. */
  lemma {:induction false} NoCommaAfterSpaceRun(s: string, k: nat)
    requires k <= |s| && (k == |s| || (!IsSpace(s[k]) && s[k] != ','))
    requires forall i :: 0 <= i < k ==> IsSpace(s[i])
    ensures !CommaAfterSpaces(s)
    decreases k
  {
    if k > 0 {
      NoCommaAfterSpaceRun(s[1..], k - 1);
    }
  }

  /** A first character that does not start a whitespace run before a comma is kept. */
  lemma KeepFirst(s: string)
    requires s != [] && !CommaAfterSpaces(s)
    ensures StripSpaceBeforeComma(s) == [s[0]] + StripSpaceBeforeComma(s[1..])
  {
  }

  /** A whitespace prefix not followed by a comma is kept entirely. */
  lemma {:induction false} KeepSpaceRun(s: string, k: nat)
    requires k <= |s| && (k == |s| || (!IsSpace(s[k]) && s[k] != ','))
    requires forall i :: 0 <= i < k ==> IsSpace(s[i])
    ensures StripSpaceBeforeComma(s) == s[..k] + StripSpaceBeforeComma(s[k..])
    decreases k
  {
    if k == 0 {
      assert s[k..] == s;
    } else {
      var t := s[1..];
      assert forall i :: 0 <= i < k - 1 ==> IsSpace(t[i]) by {
        forall i | 0 <= i < k - 1 ensures IsSpace(t[i]) {
          assert t[i] == s[i + 1];
        }
      }
      assert k - 1 < |t| ==> t[k - 1] == s[k];
      var rest := StripSpaceBeforeComma(s[k..]);
      assert StripSpaceBeforeComma(t) == t[..k - 1] + rest by {
        KeepSpaceRun(t, k - 1);
        assert t[k - 1..] == s[k..];
      }
      assert StripSpaceBeforeComma(s) == [s[0]] + StripSpaceBeforeComma(t) by {
        NoCommaAfterSpaceRun(s, k);
        KeepFirst(s);
      }
      calc {
        StripSpaceBeforeComma(s);
        [s[0]] + (t[..k - 1] + rest);
        ([s[0]] + t[..k - 1]) + rest;
        { assert s[..k] == [s[0]] + t[..k - 1]; }
        s[..k] + rest;
      }
    }
  }

  /** The character-wise fix and the regex engine's left-to-right substitution agree. */
  lemma {:induction false} RegexSubAgrees(s: string)
    ensures RegexSubSpaceComma(s) == StripSpaceBeforeComma(s)
    decreases |s|
  {
    if s != [] {
      var k := SpaceRunLength(s);
      if k == 0 {
        RegexSubAgrees(s[1..]);
        if s[0] == ',' {
          assert CommaAfterSpaces(s);
        }
      } else if k < |s| && s[k] == ',' {
        StripSpaceRunBeforeComma(s, k);
        RegexSubAgrees(s[k + 1..]);
        assert s[k..][1..] == s[k + 1..];
        assert !IsSpace(s[k]);
      } else {
        KeepSpaceRun(s, k);
        NoCommaAfterSpaceRun(s, k);
        RegexSubAgrees(s[k..]);
      }
    }
  }

  // ---------------------------------------------------------------------------
  // prepare_csv
  // ---------------------------------------------------------------------------

  /** The length of the first line of non-empty `s`, its `\n` included when it has one. */
  function LineLength(s: string): (n: nat)
    requires s != []
    ensures 0 < n <= |s|
    ensures forall i :: 0 <= i < n - 1 ==> s[i] != '\n'
    ensures n < |s| ==> s[n - 1] == '\n'
    decreases |s|
  {
    if s[0] == '\n' || |s| == 1 then 1 else 1 + LineLength(s[1..])
  }

  /** `file.readlines()`: the lines of `s`, each keeping its terminating `\n`. */
  function ReadLines(s: string): (lines: seq<string>)
    ensures s == [] <==> lines == []
    decreases |s|
  {
    if s == [] then [] else [s[..LineLength(s)]] + ReadLines(s[LineLength(s)..])
  }

  /** `"".join(lines)`. */
  function Concat(lines: seq<string>): string
    decreases |lines|
  {
    if lines == [] then "" else lines[0] + Concat(lines[1..])
  }

  /** Reading the lines and joining them back gives the content unchanged. */
  lemma {:induction false} ConcatReadLines(s: string)
    ensures Concat(ReadLines(s)) == s
    decreases |s|
  {
    if s != [] {
      var n := LineLength(s);
      ConcatReadLines(s[n..]);
      assert s[..n] + s[n..] == s;
    }
  }

  /** The first line of `a + rest` is `a` when `a` is a whole line. */
  lemma {:induction false} LineLengthOf(a: string, rest: string)
    requires a != []
    requires forall i :: 0 <= i < |a| - 1 ==> a[i] != '\n'
    requires rest != [] ==> a[|a| - 1] == '\n'
    ensures LineLength(a + rest) == |a|
    decreases |a|
  {
    if |a| > 1 {
      assert (a + rest)[1..] == a[1..] + rest;
      LineLengthOf(a[1..], rest);
    }
  }

  /** `prepare_csv`: `None` when there is no first line (indexing it raises), else the new text. */
  function Prepared(content: string): (r: Option<string>)
    ensures r.None? <==> content == []
  {
    if content == [] then None
    else
      var n := LineLength(content);
      Some(StripSpaceBeforeComma(content[..n]) + content[n..])
  }

  /** The fixed first line is still one line, ending in `\n` when the original did. */
  lemma FixedLineShape(first: string)
    requires first != []
    requires forall i :: 0 <= i < |first| - 1 ==> first[i] != '\n'
    ensures var f := StripSpaceBeforeComma(first);
      f != [] &&
      (forall i :: 0 <= i < |f| - 1 ==> f[i] != '\n') &&
      (first[|first| - 1] == '\n' ==> f[|f| - 1] == '\n')
  {
    var f := StripSpaceBeforeComma(first);
    StripSpaceBeforeCommaShape(first);
    if first[|first| - 1] == '\n' {
      var m := first[..|first| - 1];
      assert '\n' !in m by {
        forall i | 0 <= i < |m| ensures m[i] != '\n' {
          assert m[i] == first[i];
        }
      }
      var fm := StripSpaceBeforeComma(m);
      assert '\n' !in fm by {
        StripSpaceBeforeCommaShape(m);
        assert multiset(m)['\n'] == 0;
        assert multiset(fm)['\n'] == 0;
      }
      assert f == fm + ['\n'] by {
        assert m + ['\n'] == first;
        StripSpaceBeforeCommaSnoc(m, '\n');
      }
      forall i | 0 <= i < |f| - 1 ensures f[i] != '\n' {
        assert f[i] == fm[i];
      }
    } else {
      assert '\n' !in first by {
        forall i | 0 <= i < |first| ensures first[i] != '\n' {
        }
      }
      assert multiset(first)['\n'] == 0;
      assert multiset(f)['\n'] == 0;
    }
  }

  /**
   * Only the first line changes: reading the lines of the prepared text gives the
   * fixed first line followed by every later line of the upload, unchanged and in order.
   */
  lemma PreparedLines(content: string)
    requires content != []
    ensures ReadLines(Prepared(content).value)
         == [StripSpaceBeforeComma(ReadLines(content)[0])] + ReadLines(content)[1..]
  {
    var n := LineLength(content);
    var first, rest := content[..n], content[n..];
    assert ReadLines(content) == [first] + ReadLines(rest);
    assert forall i :: 0 <= i < |first| - 1 ==> first[i] != '\n' by {
      forall i | 0 <= i < |first| - 1 ensures first[i] != '\n' {
        assert first[i] == content[i];
      }
    }
    FixedLineShape(first);
    var fixed := StripSpaceBeforeComma(first);
    assert rest != [] ==> fixed[|fixed| - 1] == '\n' by {
      if rest != [] {
        assert first[|first| - 1] == content[n - 1];
      }
    }
    LineLengthOf(fixed, rest);
    var out := fixed + rest;
    assert Prepared(content).value == out;
    assert out[..|fixed|] == fixed && out[|fixed|..] == rest;
    assert ReadLines(out) == [fixed] + ReadLines(rest);
  }

  /** `prepare_csv` over the lines of the upload: the first is rewritten in place, then all are joined. */
  method PrepareCsv(content: string) returns (r: Option<string>)
    ensures r == Prepared(content)
  {
    var lines := ReadLines(content);
    if |lines| == 0 {
      // `csv_content[0]` raises IndexError
      return None;
    }
    lines := lines[0 := StripSpaceBeforeComma(lines[0])];
    var n := LineLength(content);
    ConcatReadLines(content[n..]);
    assert lines == [StripSpaceBeforeComma(content[..n])] + ReadLines(content[n..]);
    r := Some(Concat(lines));
  }

  // ---------------------------------------------------------------------------
  // The reader
  // ---------------------------------------------------------------------------

  /** A cell or field value: a string, Python's `None`, or any other object a hook may produce. */
  datatype Value = Str(s: string) | Null | Other(id: nat)

  /** A row as a dictionary from names to values. */
  type Row = map<string, Value>

  /**
   * What `csv.DictReader` reads from a text. It reads lazily: the header line when
   * `fieldnames` is first asked for, then one record at a time while the rows are
   * iterated. `records` are the records read before the text ended or a record could
   * not be parsed; `broken` says whether reading went on to a record that raises
   * `csv.Error`, which then ends every iteration over the rows.
   */
  datatype Table = Table(header: seq<string>, records: seq<seq<string>>, broken: bool)

  /** `csv.DictReader` over a text: `None` when reading its header raises. */
  type CsvParser = string -> Option<Table>

  /** `dict(zip(names, cells))`: pairs up to the shorter list; a later pair wins a repeated name. */
  function Zip(names: seq<string>, cells: seq<string>): (d: Row)
    ensures forall n :: n in d <==> n in names[..if |cells| < |names| then |cells| else |names|]
    decreases |names|
  {
    if names == [] || cells == [] then map[]
    else
      var tail := Zip(names[1..], cells[1..]);
      assert names[..if |cells| < |names| then |cells| else |names|]
          == [names[0]] + names[1..][..if |cells[1..]| < |names[1..]| then |cells[1..]| else |names[1..]|];
      map[names[0] := Str(cells[0])] + tail
  }

  /** A name paired with a cell and not paired again later holds that cell. */
  lemma {:induction false} ZipLastWins(names: seq<string>, cells: seq<string>, i: nat)
    requires i < |names| && i < |cells|
    requires forall j :: i < j < |names| && j < |cells| ==> names[j] != names[i]
    ensures names[i] in Zip(names, cells) && Zip(names, cells)[names[i]] == Str(cells[i])
    decreases i
  {
    var tail := Zip(names[1..], cells[1..]);
    if i == 0 {
      var m := if |cells[1..]| < |names[1..]| then |cells[1..]| else |names[1..]|;
      forall k | 0 <= k < m ensures names[1..][..m][k] != names[0] {
        assert names[1..][..m][k] == names[k + 1];
      }
    } else {
      assert names[1..][i - 1] == names[i] && cells[1..][i - 1] == cells[i];
      forall j | i - 1 < j < |names[1..]| && j < |cells[1..]| ensures names[1..][j] != names[1..][i - 1] {
        assert names[1..][j] == names[j + 1];
      }
      ZipLastWins(names[1..], cells[1..], i - 1);
    }
  }

  /**
   * The dictionary `csv.DictReader` yields for one record: names zipped with cells,
   * then every name beyond the last cell set to the default `None`. Cells beyond the
   * last name go under the reader's extra key, which is no column name and is not
   * modelled.
   */
  function RowDict(names: seq<string>, cells: seq<string>): (d: Row)
    ensures forall n :: n in d <==> n in names
  {
    var missing := if |cells| < |names| then names[|cells|..] else [];
    assert forall n :: n in names ==> n in names[..|names| - |missing|] || n in missing by {
      forall n | n in names ensures n in names[..|names| - |missing|] || n in missing {
        var i :| 0 <= i < |names| && names[i] == n;
        if i < |names| - |missing| {
          assert names[..|names| - |missing|][i] == n;
        } else {
          assert missing[i - (|names| - |missing|)] == n;
        }
      }
    }
    Zip(names, cells) + map n | n in missing :: Null
  }

  /**
   * A name not repeated later in the header holds its record's cell, or `None` when
   * the record ends before it.
   */
  lemma RowDictCells(names: seq<string>, cells: seq<string>, i: nat)
    requires i < |names|
    requires forall j :: i < j < |names| ==> names[j] != names[i]
    ensures names[i] in RowDict(names, cells)
    ensures RowDict(names, cells)[names[i]] == if i < |cells| then Str(cells[i]) else Null
  {
    var missing := if |cells| < |names| then names[|cells|..] else [];
    var defaults: map<string, Value> := map n | n in missing :: Null;
    assert RowDict(names, cells) == Zip(names, cells) + defaults;
    if i < |cells| {
      ZipLastWins(names, cells, i);
      assert names[i] !in defaults by {
        forall k | 0 <= k < |missing| ensures missing[k] != names[i] {
          assert missing[k] == names[|cells| + k];
        }
      }
    } else {
      assert names[i] in defaults by {
        assert missing[i - |cells|] == names[i];
      }
    }
  }

  /**
   * The reader returned by `create_csv_reader`: cleaned field names over the records
   * it reads, and whether iterating its rows raises after the last of them.
   */
  datatype Reader = Reader(fieldnames: seq<string>, records: seq<seq<string>>, broken: bool) {
    /** The `i`-th row dictionary, keyed by the (cleaned) field names. */
    function Row(i: nat): (d: Row)
      requires i < |records|
      ensures forall n :: n in d <==> n in fieldnames
    {
      RowDict(fieldnames, records[i])
    }
  }

  /**
   * What the reader's `i`-th row holds: each field name not repeated later in the
   * header holds the record's cell at its position, or `None` past the record's end.
   */
  lemma RowCells(reader: Reader, i: nat)
    requires i < |reader.records|
    ensures var d := reader.Row(i);
      forall k :: 0 <= k < |reader.fieldnames| &&
        (forall j :: k < j < |reader.fieldnames| ==> reader.fieldnames[j] != reader.fieldnames[k])
        ==> d[reader.fieldnames[k]] ==
              if k < |reader.records[i]| then Str(reader.records[i][k]) else Null
  {
    forall k | 0 <= k < |reader.fieldnames| &&
        (forall j :: k < j < |reader.fieldnames| ==> reader.fieldnames[j] != reader.fieldnames[k])
      ensures reader.Row(i)[reader.fieldnames[k]] ==
                if k < |reader.records[i]| then Str(reader.records[i][k]) else Null
    {
      RowDictCells(reader.fieldnames, reader.records[i], k);
    }
  }

  /** Each header name with its control and format characters removed, in header order. */
  function CleanFieldnames(category: CategoryTable, header: seq<string>): seq<string> {
    seq(|header|, i requires 0 <= i < |header| => RemoveControlChars(category, header[i]))
  }

  /** `create_csv_reader`: prepare the text, parse it, clean the field names; `None` when any step raises. */
  function ReaderOf(content: string, parse: CsvParser, category: CategoryTable): Option<Reader> {
    match Prepared(content)
    case None => None
    case Some(text) =>
      match parse(text)
      case None => None
      case Some(t) => Some(Reader(CleanFieldnames(category, t.header), t.records, t.broken))
  }

  /**
   * What `create_csv_reader` gives: the reader's field names are the cleaned header
   * names, one for one and in order, and none of them keeps a character of the
   * removal set; the records, and whether a later record raises, are the parser's.
   * Only the header is read here: an upload without a first line, or one whose header
   * cannot be read, gives no reader, and a record that cannot be parsed does not.
   */
  lemma ReaderOfShape(content: string, parse: CsvParser, category: CategoryTable)
    ensures var r := ReaderOf(content, parse, category);
      (r.None? <==> content == [] || parse(Prepared(content).value).None?) &&
      (r.Some? ==>
        var t := parse(Prepared(content).value).value;
        |r.value.fieldnames| == |t.header| && r.value.records == t.records &&
        r.value.broken == t.broken &&
        (forall i :: 0 <= i < |t.header| ==>
           r.value.fieldnames[i] == RemoveControlChars(category, t.header[i])) &&
        (forall i, j :: 0 <= i < |t.header| && 0 <= j < |r.value.fieldnames[i]| ==>
           !InRemovalSet(category, r.value.fieldnames[i][j])))
  {
  }

  /**
   * `create_csv_reader`: prepares the text, parses it, and overwrites the reader's
   * field names with the cleaned ones.
   */
  method CreateCsvReader(content: string, parse: CsvParser, category: CategoryTable)
    returns (r: Option<Reader>)
    ensures r == ReaderOf(content, parse, category)
  {
    var text := PrepareCsv(content);
    if text.None? {
      return None;
    }
    var parsed := parse(text.value);
    if parsed.None? {
      return None;
    }
    var reader := Reader(parsed.value.header, parsed.value.records, parsed.value.broken);
    // `reader.fieldnames = map(remove_control_chars, reader.fieldnames)`
    reader := reader.(fieldnames := CleanFieldnames(category, reader.fieldnames));
    r := Some(reader);
  }
}
