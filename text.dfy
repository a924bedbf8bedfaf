/**
 * The three library string operations that shape what the EK verifier
 * routes and reports: `filepath.Ext`, `strings.Join` (with its inverse
 * `strings.Split`) and the decimal rendering of a `big.Int` serial number.
 */
module Text {

  /** `filepath.Ext` on a directory-entry name (which holds no separator):
      the suffix starting at the last '.', or "" when there is none. */
  function Ext(name: string): (e: string)
    ensures |e| <= |name| && e == name[|name| - |e|..]
    ensures e == "" <==> '.' !in name
    ensures e != "" ==> e[0] == '.' && '.' !in e[1..]
    decreases |name|
  {
    if |name| == 0 then ""
    else if name[|name| - 1] == '.' then "."
    else
      var e := Ext(name[..|name| - 1]);
      if e == "" then "" else e + [name[|name| - 1]]
  }

  /** `strings.Join(parts, string(sep))`. */
  function Join(parts: seq<string>, sep: char): string
  {
    if |parts| == 0 then ""
    else if |parts| == 1 then parts[0]
    else parts[0] + [sep] + Join(parts[1..], sep)
  }

  /** `strings.Split(s, string(sep))`: never empty; "" splits into [""]. */
  function Split(s: string, sep: char): (r: seq<string>)
    ensures |r| >= 1
    decreases |s|
  {
    if |s| == 0 then [""]
    else if s[0] == sep then [""] + Split(s[1..], sep)
    else
      var rest := Split(s[1..], sep);
      [[s[0]] + rest[0]] + rest[1..]
  }

  /** One step of SplitAt for a separator in front: if the tail of `t`
      splits into the pieces of the tail of `p` followed by `b`, then so does
      `t` itself into the pieces of `p` followed by `b`. */
  lemma SplitAtStepSep(p: string, t: string, sep: char, b: seq<string>)
    requires |p| > 0 && |t| > 0 && t[0] == p[0] == sep
    requires Split(t[1..], sep) == Split(p[1..], sep) + b
    ensures Split(t, sep) == Split(p, sep) + b
  {
    var a := Split(p[1..], sep);
    assert [""] + (a + b) == ([""] + a) + b;
  }

  /** Extending the first of some pieces commutes with appending more pieces. */
  lemma ExtendFirstPiece(x: string, a: seq<string>, b: seq<string>)
    requires |a| >= 1
    ensures [x + (a + b)[0]] + (a + b)[1..] == ([x + a[0]] + a[1..]) + b
  {
    assert (a + b)[0] == a[0] && (a + b)[1..] == a[1..] + b;
  }

  /** The same for a character other than the separator in front. */
  lemma SplitAtStepChar(p: string, t: string, sep: char, b: seq<string>)
    requires |p| > 0 && |t| > 0 && t[0] == p[0] != sep
    requires Split(t[1..], sep) == Split(p[1..], sep) + b
    ensures Split(t, sep) == Split(p, sep) + b
  {
    ExtendFirstPiece([p[0]], Split(p[1..], sep), b);
  }

  /** Splitting at one occurrence of the separator: the pieces of what comes
      before it, then the pieces of what comes after. */
  lemma {:induction false} SplitAt(p: string, sep: char, rest: string)
    ensures Split(p + [sep] + rest, sep) == Split(p, sep) + Split(rest, sep)
    decreases |p|
  {
    var t := p + [sep] + rest;
    if |p| == 0 {
      assert t[0] == sep && t[1..] == rest;
    } else {
      assert t[0] == p[0] && t[1..] == p[1..] + [sep] + rest;
      SplitAt(p[1..], sep, rest);
      if p[0] == sep {
        SplitAtStepSep(p, t, sep, Split(rest, sep));
      } else {
        SplitAtStepChar(p, t, sep, Split(rest, sep));
      }
    }
  }

  /** A separator-free string splits into itself alone. */
  lemma {:induction false} SplitWhole(p: string, sep: char)
    requires sep !in p
    ensures Split(p, sep) == [p]
    decreases |p|
  {
    if |p| > 0 {
      SplitWhole(p[1..], sep);
      assert [p[0]] + p[1..] == p;
    }
  }

  /** A non-empty list none of whose parts contains `sep`. */
  predicate SeparatorFree(parts: seq<string>, sep: char)
  {
    |parts| >= 1 && forall i :: 0 <= i < |parts| ==> sep !in parts[i]
  }

  /** The pieces of every part, in order. */
  function SplitEach(parts: seq<string>, sep: char): seq<string>
    decreases |parts|
  {
    if |parts| == 0 then [] else Split(parts[0], sep) + SplitEach(parts[1..], sep)
  }

  /** Splitting a joined list gives the pieces of each part in order: a part
      that holds the separator falls apart, every other part comes back whole. */
  lemma {:induction false} SplitJoinEach(parts: seq<string>, sep: char)
    requires |parts| >= 1
    ensures Split(Join(parts, sep), sep) == SplitEach(parts, sep)
    decreases |parts|
  {
    if |parts| == 1 {
      assert SplitEach(parts[1..], sep) == [];
    } else {
      SplitJoinEach(parts[1..], sep);
      SplitAt(parts[0], sep, Join(parts[1..], sep));
    }
  }

  /** Join and Split are inverse on a non-empty list of separator-free parts,
      so such a joined organization list can be read back part by part. */
  lemma {:induction false} SplitJoin(parts: seq<string>, sep: char)
    requires SeparatorFree(parts, sep)
    ensures Split(Join(parts, sep), sep) == parts
    decreases |parts|
  {
    if |parts| == 1 {
      SplitWhole(parts[0], sep);
    } else {
      SplitJoin(parts[1..], sep);
      SplitWhole(parts[0], sep);
      SplitAt(parts[0], sep, Join(parts[1..], sep));
      assert [parts[0]] + parts[1..] == parts;
    }
  }

  /** The character for a decimal digit. */
  function DigitChar(d: nat): (c: char)
    requires d < 10
    ensures '0' <= c <= '9'
  {
    ('0' as int + d) as char
  }

  /** The digit a decimal character stands for. */
  function DigitValue(c: char): (d: nat)
    requires '0' <= c <= '9'
    ensures d < 10 && DigitChar(d) == c
  {
    (c as int - '0' as int)
  }

  /** Decimal digits of a natural number, most significant first, no leading zeros. */
  function NatDecimal(n: nat): (s: string)
    ensures |s| >= 1
    ensures forall i :: 0 <= i < |s| ==> '0' <= s[i] <= '9'
    ensures s[0] == '0' <==> n == 0
    ensures |s| > 1 ==> s[0] != '0'
    decreases n
  {
    if n < 10 then [DigitChar(n)] else NatDecimal(n / 10) + [DigitChar(n % 10)]
  }

  /** Reads back a non-empty string of decimal digits. */
  function ParseNat(s: string): nat
    requires |s| >= 1
    requires forall i :: 0 <= i < |s| ==> '0' <= s[i] <= '9'
    decreases |s|
  {
    if |s| == 1 then DigitValue(s[0])
    else ParseNat(s[..|s| - 1]) * 10 + DigitValue(s[|s| - 1])
  }

  /** An optional '-' followed by at least one decimal digit. */
  predicate IsDecimal(s: string)
  {
    && |s| >= 1
    && (s[0] == '-' ==> |s| >= 2 && forall i :: 1 <= i < |s| ==> '0' <= s[i] <= '9')
    && (s[0] != '-' ==> forall i :: 0 <= i < |s| ==> '0' <= s[i] <= '9')
  }

  /** Reads back a signed decimal numeral. */
  function ParseDecimal(s: string): int
    requires IsDecimal(s)
  {
    if s[0] == '-' then 0 - ParseNat(s[1..]) as int else ParseNat(s) as int
  }

  lemma {:induction false} ParseNatDecimal(n: nat)
    ensures ParseNat(NatDecimal(n)) == n
    decreases n
  {
    if n >= 10 {
      ParseNatDecimal(n / 10);
      var s := NatDecimal(n);
      assert s[..|s| - 1] == NatDecimal(n / 10);
      assert DigitValue(s[|s| - 1]) == n % 10;
      assert (n / 10) * 10 + n % 10 == n;
    }
  }

  /** `(*big.Int).String()`: base-10 with a leading '-' for negative values.
      The rendering reads back to the number, so distinct serial numbers
      never share a summary string. */
  function Decimal(n: int): (s: string)
    ensures IsDecimal(s) && ParseDecimal(s) == n
    ensures s[0] == '-' <==> n < 0
    ensures s[if n < 0 then 1 else 0] == '0' <==> n == 0
    ensures |s| > 1 ==> s[if n < 0 then 1 else 0] != '0'
  {
    if n < 0 then
      ParseNatDecimal(-n);
      var s := "-" + NatDecimal(-n);
      assert s[1..] == NatDecimal(-n);
      s
    else
      ParseNatDecimal(n);
      NatDecimal(n)
  }
}
