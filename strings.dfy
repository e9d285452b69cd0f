/**
 * The few Python string operations the importer relies on, over strings seen as
 * sequences of code points: `pat in s`, `s.endswith(suffix)`, `s.replace(pat, '')`,
 * `','.join(...)` as built up by repeated `+= "," + piece`, `s.split(',')`, and
 * `str(n)` for a non-negative integer primary key.
 */
module Strings {

  /** `p` is a prefix of `s`. */
  predicate IsPrefix(p: string, s: string) {
    |p| <= |s| && s[..|p|] == p
  }

  /** Python's `pat in s`: `pat` occurs somewhere in `s` as a contiguous piece. */
  predicate Contains(s: string, pat: string)
    decreases |s|
  {
    IsPrefix(pat, s) || (s != [] && Contains(s[1..], pat))
  }

  /** Python's `s.endswith(suffix)`. */
  predicate EndsWith(s: string, suffix: string) {
    |suffix| <= |s| && s[|s| - |suffix|..] == suffix
  }

  /**
   * Python's `s.replace(pat, '')` for a non-empty `pat`: scanning left to right,
   * every non-overlapping occurrence of `pat` is deleted.
   */
  function RemoveAll(s: string, pat: string): (r: string)
    requires pat != []
    ensures |r| <= |s|
    ensures !Contains(s, pat) ==> r == s
    decreases |s|
  {
    if |s| < |pat| then s
    else if s[..|pat|] == pat then RemoveAll(s[|pat|..], pat)
    else [s[0]] + RemoveAll(s[1..], pat)
  }

  /** How many occurrences `RemoveAll` deletes: the non-overlapping ones, leftmost first. */
  function RemovedCount(s: string, pat: string): nat
    requires pat != []
    decreases |s|
  {
    if |s| < |pat| then 0
    else if s[..|pat|] == pat then RemovedCount(s[|pat|..], pat) + 1
    else RemovedCount(s[1..], pat)
  }

  /** The result is shorter than the input by a whole copy of `pat` per removed occurrence. */
  lemma {:induction false} RemoveAllLength(s: string, pat: string)
    requires pat != []
    ensures |s| - |RemoveAll(s, pat)| == RemovedCount(s, pat) * |pat|
    decreases |s|
  {
    if |s| < |pat| {
    } else if s[..|pat|] == pat {
      RemoveAllLength(s[|pat|..], pat);
      MulSucc(RemovedCount(s[|pat|..], pat), |pat|);
    } else {
      RemoveAllLength(s[1..], pat);
    }
  }

  lemma MulSucc(k: nat, p: nat)
    ensures (k + 1) * p == k * p + p
  {
  }

  /**
   * `s.replace(c, '')` for a one-character pattern removes exactly the copies of `c`:
   * none is left, and every other character keeps its number of occurrences.
   */
  lemma {:induction false} RemoveAllChar(s: string, c: char)
    ensures c !in RemoveAll(s, [c])
    ensures multiset(RemoveAll(s, [c])) == multiset(s)[c := 0]
    decreases |s|
  {
    if s == [] {
    } else if s[..1] == [c] {
      RemoveAllChar(s[1..], c);
      assert s == [c] + s[1..];
      assert multiset(s) == multiset{c} + multiset(s[1..]);
    } else {
      RemoveAllChar(s[1..], c);
      assert s == [s[0]] + s[1..];
      assert multiset(s) == multiset{s[0]} + multiset(s[1..]);
    }
  }

  /**
   * Deleting a one-character pattern works piece by piece: the kept characters of a
   * concatenation are those of each side, in their order.
   */
  lemma {:induction false} RemoveAllCharAppend(a: string, b: string, c: char)
    ensures RemoveAll(a + b, [c]) == RemoveAll(a, [c]) + RemoveAll(b, [c])
    decreases |a|
  {
    if a != [] {
      var s := a + b;
      assert s[1..] == a[1..] + b && s[..1] == a[..1] == [a[0]];
      RemoveAllCharAppend(a[1..], b, c);
      if a[0] == c {
        assert RemoveAll(s, [c]) == RemoveAll(s[1..], [c]);
        assert RemoveAll(a, [c]) == RemoveAll(a[1..], [c]);
      } else {
        assert RemoveAll(s, [c]) == [a[0]] + RemoveAll(s[1..], [c]);
        assert RemoveAll(a, [c]) == [a[0]] + RemoveAll(a[1..], [c]);
      }
    } else {
      assert a + b == b;
    }
  }

  /** A string without the character is left as it is. */
  lemma {:induction false} RemoveAllCharAbsent(s: string, c: char)
    requires c !in s
    ensures RemoveAll(s, [c]) == s
    decreases |s|
  {
    if s != [] {
      assert s[..1] == [s[0]] && s[0] != c;
      assert c !in s[1..] by {
        forall i | 0 <= i < |s[1..]| ensures s[1..][i] != c {
          assert s[1..][i] == s[i + 1];
        }
      }
      RemoveAllCharAbsent(s[1..], c);
      assert [s[0]] + s[1..] == s;
    }
  }

  /**
   * A name made of `pat` followed by a remainder in which `pat` does not occur
   * loses exactly that leading `pat`.
   */
  lemma RemoveAllAfterPrefix(s: string, pat: string)
    requires pat != []
    ensures IsPrefix(pat, s) && !Contains(s[|pat|..], pat) ==> RemoveAll(s, pat) == s[|pat|..]
  {
  }

  /** An occurrence at the front is deleted and the scan resumes after it. */
  lemma RemoveAllPrefix(pat: string, t: string)
    requires pat != []
    ensures RemoveAll(pat + t, pat) == RemoveAll(t, pat)
  {
    assert (pat + t)[..|pat|] == pat && (pat + t)[|pat|..] == t;
  }

  /** A first character that does not begin an occurrence is kept and the scan moves on by one. */
  lemma RemoveAllKeep(pat: string, c: char, t: string)
    requires pat != [] && !IsPrefix(pat, [c] + t)
    ensures RemoveAll([c] + t, pat) == [c] + RemoveAll(t, pat)
  {
    assert ([c] + t)[1..] == t;
  }

  /**
   * The pieces joined with `,`, built the way `csvimporter/forms.py` builds its id
   * list: the first piece alone, then `+= "," + piece` for each later one.
   */
  function JoinComma(pieces: seq<string>): (r: string)
    requires pieces != []
    decreases |pieces|
  {
    if |pieces| == 1 then pieces[0]
    else JoinComma(pieces[..|pieces| - 1]) + "," + pieces[|pieces| - 1]
  }

  /** Python's `s.split(',')`: the pieces between commas; never an empty list. */
  function SplitComma(s: string): (r: seq<string>)
    ensures r != []
    decreases |s|
  {
    if s == [] then [""]
    else
      var rest := SplitComma(s[1..]);
      if s[0] == ',' then [""] + rest
      else [[s[0]] + rest[0]] + rest[1..]
  }

  /** A string without commas splits into itself alone. */
  lemma {:induction false} SplitNoComma(s: string)
    requires ',' !in s
    ensures SplitComma(s) == [s]
    decreases |s|
  {
    if s != [] {
      assert ',' !in s[1..] by {
        forall i | 0 <= i < |s[1..]| ensures s[1..][i] != ',' {
          assert s[1..][i] == s[i + 1];
        }
      }
      SplitNoComma(s[1..]);
      assert [s[0]] + s[1..] == s;
    }
  }

  /** Splitting at a comma: the pieces of the two sides, one after the other. */
  lemma {:induction false} SplitAppend(x: string, y: string)
    ensures SplitComma(x + "," + y) == SplitComma(x) + SplitComma(y)
    decreases |x|
  {
    if x == [] {
      assert x + "," + y == [','] + y;
      assert ([','] + y)[1..] == y;
    } else {
      var s := x + "," + y;
      var t := x[1..] + "," + y;
      assert s[0] == x[0] && s[1..] == t;
      var px, py := SplitComma(x[1..]), SplitComma(y);
      assert SplitComma(t) == px + py by {
        SplitAppend(x[1..], y);
      }
      if x[0] == ',' {
        calc {
          SplitComma(s);
          [""] + SplitComma(t);
          [""] + (px + py);
          ([""] + px) + py;
          SplitComma(x) + py;
        }
      } else {
        calc {
          SplitComma(s);
          [[x[0]] + SplitComma(t)[0]] + SplitComma(t)[1..];
          { assert SplitComma(t)[0] == px[0] && SplitComma(t)[1..] == px[1..] + py; }
          [[x[0]] + px[0]] + (px[1..] + py);
          ([[x[0]] + px[0]] + px[1..]) + py;
          SplitComma(x) + py;
        }
      }
    }
  }

  /** `s.split(',')` undoes the join of pieces that hold no comma. */
  lemma {:induction false} SplitJoin(pieces: seq<string>)
    requires pieces != []
    requires forall i :: 0 <= i < |pieces| ==> ',' !in pieces[i]
    ensures SplitComma(JoinComma(pieces)) == pieces
    decreases |pieces|
  {
    if |pieces| == 1 {
      SplitNoComma(pieces[0]);
    } else {
      var init := pieces[..|pieces| - 1];
      var last := pieces[|pieces| - 1];
      SplitJoin(init);
      SplitAppend(JoinComma(init), last);
      SplitNoComma(last);
      assert init + [last] == pieces;
    }
  }

  /** A decimal digit `0` … `9`. */
  predicate IsDigit(c: char) {
    '0' <= c <= '9'
  }

  /** The digit character for a value below ten. */
  function DigitChar(d: nat): (c: char)
    requires d < 10
    ensures IsDigit(c) && c as int - '0' as int == d
  {
    ('0' as int + d) as char
  }

  /** Python's `str(n)` for a non-negative integer: its decimal digits, no sign, no separator. */
  function DecimalString(n: nat): (r: string)
    ensures r != []
    ensures forall i :: 0 <= i < |r| ==> IsDigit(r[i])
    decreases n
  {
    if n < 10 then [DigitChar(n)]
    else DecimalString(n / 10) + [DigitChar(n % 10)]
  }

  /** The value of one decimal digit. */
  function DigitValue(c: char): (d: nat)
    requires IsDigit(c)
    ensures d < 10 && DigitChar(d) == c
  {
    c as int - '0' as int
  }

  /** The value of a string of decimal digits (the empty string reads as 0). */
  function ParseDecimal(s: string): nat
    requires forall i :: 0 <= i < |s| ==> IsDigit(s[i])
    decreases |s|
  {
    if s == [] then 0
    else ParseDecimal(s[..|s| - 1]) * 10 + DigitValue(s[|s| - 1])
  }

  /** Reading back the decimal digits of `n` gives `n`. */
  lemma {:induction false} ParseDecimalString(n: nat)
    ensures ParseDecimal(DecimalString(n)) == n
    decreases n
  {
    var r := DecimalString(n);
    if n >= 10 {
      ParseDecimalString(n / 10);
      assert r[..|r| - 1] == DecimalString(n / 10);
    }
  }
}
