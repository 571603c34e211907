/** Comma-separated text as the stores use it: no quoting, no escaping, and
    integers written and read in decimal. */
module Csv {
  import opened Wrappers

  predicate NoComma(f: string)
  {
    ',' !in f
  }

  /** Length of the leading field: up to the first comma or the end of the line. */
  function FieldEnd(s: string): (k: nat)
    ensures k <= |s|
    ensures forall j :: 0 <= j < k ==> s[j] != ','
    ensures k < |s| ==> s[k] == ','
  {
    if |s| == 0 || s[0] == ',' then 0 else 1 + FieldEnd(s[1..])
  }

  /** The fields that repeated `getline(ss, field, ',')` reads from a line:
      an empty line has no fields, and a trailing empty field is not read. */
  function Split(s: string): (fields: seq<string>)
    ensures forall f :: f in fields ==> NoComma(f)
    ensures |fields| <= |s|
    decreases |s|
  {
    if |s| == 0 then []
    else
      var k := FieldEnd(s);
      if k == |s| then [s] else [s[..k]] + Split(s[k + 1..])
  }

  /** Fields written one after another with a comma between each pair. */
  function Join(fields: seq<string>): string
  {
    if |fields| == 0 then ""
    else if |fields| == 1 then fields[0]
    else fields[0] + "," + Join(fields[1..])
  }

  lemma FieldEndOfJoin(f: string, rest: string)
    requires NoComma(f)
    ensures FieldEnd(f + "," + rest) == |f|
    ensures FieldEnd(f) == |f|
  {
    var s := f + "," + rest;
    assert s[|f|] == ',';
    assert forall j :: 0 <= j < |f| ==> s[j] == f[j];
  }

  /** Splitting a joined row gives the fields back when no field holds a comma
      and the last field is not empty. */
  lemma {:induction false} SplitJoin(fields: seq<string>)
    requires |fields| > 0 && fields[|fields| - 1] != ""
    requires forall i :: 0 <= i < |fields| ==> NoComma(fields[i])
    ensures Split(Join(fields)) == fields
  {
    if |fields| == 1 {
      FieldEndOfJoin(fields[0], "");
    } else {
      var rest := Join(fields[1..]);
      var s := fields[0] + "," + rest;
      FieldEndOfJoin(fields[0], rest);
      assert s[..|fields[0]|] == fields[0];
      assert s[|fields[0]| + 1..] == rest;
      SplitJoin(fields[1..]);
    }
  }

  /** Why the last field must not be empty: an empty field written last is
      not read back, and the fields before it are. */
  lemma TrailingEmptyFieldLost(fields: seq<string>)
    requires |fields| > 0 && fields[|fields| - 1] != ""
    requires forall i :: 0 <= i < |fields| ==> NoComma(fields[i])
    ensures Split(Join(fields + [""])) == fields
  {
    JoinEmptyLast(fields);
    SplitJoinComma(fields);
  }

  /** An empty last field leaves only its comma behind. */
  lemma {:induction false} JoinEmptyLast(fields: seq<string>)
    requires |fields| > 0
    ensures Join(fields + [""]) == Join(fields) + ","
  {
    if |fields| > 1 {
      assert (fields + [""])[1..] == fields[1..] + [""];
      JoinEmptyLast(fields[1..]);
    }
  }

  /** A comma-free field followed by a comma is read as that field, then the rest. */
  lemma SplitCons(f: string, rest: string)
    requires NoComma(f)
    ensures Split(f + "," + rest) == [f] + Split(rest)
  {
    var s := f + "," + rest;
    FieldEndOfJoin(f, rest);
    assert s[..|f|] == f;
    assert s[|f| + 1..] == rest;
  }

  /** A trailing comma after fields that read back adds no field. */
  lemma {:induction false} SplitJoinComma(fields: seq<string>)
    requires |fields| > 0 && fields[|fields| - 1] != ""
    requires forall i :: 0 <= i < |fields| ==> NoComma(fields[i])
    ensures Split(Join(fields) + ",") == fields
  {
    if |fields| == 1 {
      SplitCons(fields[0], "");
      assert fields[0] + "," + "" == Join(fields) + ",";
    } else {
      SplitJoinCommaStep(fields);
      SplitJoinComma(fields[1..]);
      assert fields == [fields[0]] + fields[1..];
    }
  }

  lemma SplitJoinCommaStep(fields: seq<string>)
    requires |fields| > 1 && NoComma(fields[0])
    ensures Split(Join(fields) + ",") == [fields[0]] + Split(Join(fields[1..]) + ",")
  {
    var f, rest := fields[0], Join(fields[1..]);
    assert Join(fields) + "," == f + "," + (rest + ",");
    SplitCons(f, rest + ",");
  }

  predicate IsDigit(c: char)
  {
    '0' <= c <= '9'
  }

  /** The characters `isspace` accepts in the C locale: space and tab through carriage return. */
  predicate IsSpace(c: char)
  {
    c == ' ' || '\t' <= c <= '\r'
  }

  predicate AllDigits(s: string)
  {
    forall j :: 0 <= j < |s| ==> IsDigit(s[j])
  }

  function DigitChar(d: nat): char
    requires d < 10
  {
    (d + '0' as int) as char
  }

  /** The decimal text of a non-negative number, without leading zeros. */
  function NatText(n: nat): (s: string)
    ensures |s| > 0 && AllDigits(s)
    ensures NoComma(s)
  {
    if n < 10 then [DigitChar(n)] else NatText(n / 10) + [DigitChar(n % 10)]
  }

  /** The decimal text `to_string` and stream output produce for an integer. */
  function IntText(n: int): (s: string)
    ensures |s| > 0 && NoComma(s)
  {
    if n < 0 then "-" + NatText(-n) else NatText(n)
  }

  /** The value of a string of digits read left to right. */
  function DigitsValue(s: string): nat
    requires AllDigits(s)
  {
    if |s| == 0 then 0 else DigitsValue(s[..|s| - 1]) * 10 + (s[|s| - 1] as int - '0' as int)
  }

  /** Length of the leading run of digits. */
  function DigitRun(s: string): (k: nat)
    ensures k <= |s| && AllDigits(s[..k])
    ensures k < |s| ==> !IsDigit(s[k])
  {
    if |s| == 0 || !IsDigit(s[0]) then 0
    else
      var k := 1 + DigitRun(s[1..]);
      assert s[..k] == [s[0]] + s[1..][..k - 1];
      k
  }

  /** What is left after leading white space. */
  function SkipSpace(s: string): (t: string)
    ensures |t| <= |s| && t == s[|s| - |t|..]
    ensures |t| > 0 ==> !IsSpace(t[0])
  {
    if |s| > 0 && IsSpace(s[0]) then SkipSpace(s[1..]) else s
  }

  /** The value of the leading run of digits, if there is one. */
  function LeadingDigits(u: string): Option<nat>
  {
    var k := DigitRun(u);
    if k == 0 then None else Some(DigitsValue(u[..k]))
  }

  /** The number `stoi` and `stol` read: leading white space, an optional sign,
      then the longest run of digits; any text after it is ignored. `None` stands
      for the exception thrown when no digit follows. */
  function ParseInt(s: string): Option<int>
  {
    var t := SkipSpace(s);
    if |t| > 0 && t[0] == '-' then
      match LeadingDigits(t[1..])
      case None => None
      case Some(v) => Some(-(v as int))
    else if |t| > 0 && t[0] == '+' then
      match LeadingDigits(t[1..])
      case None => None
      case Some(v) => Some(v)
    else
      match LeadingDigits(t)
      case None => None
      case Some(v) => Some(v)
  }

  lemma {:induction false} DigitsValueOfText(n: nat)
    ensures DigitsValue(NatText(n)) == n
  {
    if n >= 10 {
      var s := NatText(n);
      assert s[..|s| - 1] == NatText(n / 10);
      DigitsValueOfText(n / 10);
    }
  }

  lemma {:induction false} DigitRunOfText(s: string, rest: string)
    requires AllDigits(s)
    requires rest == [] || !IsDigit(rest[0])
    ensures DigitRun(s + rest) == |s|
  {
    if |s| > 0 {
      assert (s + rest)[1..] == s[1..] + rest;
      DigitRunOfText(s[1..], rest);
    }
  }

  /** A field holding only digits is read as their decimal value. */
  lemma ParseDigits(s: string)
    requires |s| > 0 && AllDigits(s)
    ensures ParseInt(s) == Some(DigitsValue(s))
  {
    DigitRunOfAll(s);
  }

  /** A string of digits has no leading white space and is one run of digits. */
  lemma DigitRunOfAll(s: string)
    ensures AllDigits(s) ==> DigitRun(s) == |s|
    ensures |s| > 0 && AllDigits(s) ==> SkipSpace(s) == s && LeadingDigits(s) == Some(DigitsValue(s))
  {
    if AllDigits(s) {
      assert |s| > 0 ==> !IsSpace(s[0]);
      assert s[..|s|] == s;
      DigitRunOfText(s, "");
      assert s + "" == s;
    }
  }

  /** Text starting with a digit is read as its leading digits. */
  lemma ParseUnsigned(u: string, m: nat)
    requires |u| > 0 && IsDigit(u[0]) && LeadingDigits(u) == Some(m)
    ensures ParseInt(u) == Some(m)
  {
    assert SkipSpace(u) == u;
  }

  /** A minus sign followed by a digit is read as the negated leading digits. */
  lemma ParseNegative(d: string, rest: string, m: nat)
    requires |d| > 0 && IsDigit(d[0]) && LeadingDigits(d + rest) == Some(m)
    ensures ParseInt(("-" + d) + rest) == Some(-(m as int))
  {
    var s := ("-" + d) + rest;
    assert SkipSpace(s) == s;
    assert s[1..] == d + rest;
  }

  lemma ParseNatText(m: nat, rest: string)
    requires rest == [] || !IsDigit(rest[0])
    ensures LeadingDigits(NatText(m) + rest) == Some(m)
  {
    var digits := NatText(m);
    var u := digits + rest;
    DigitRunOfText(digits, rest);
    DigitsValueOfText(m);
    assert u[..|digits|] == digits;
  }

  lemma ParseNonNegativeText(n: nat, rest: string)
    requires rest == [] || !IsDigit(rest[0])
    ensures ParseInt(IntText(n) + rest) == Some(n)
  {
    var u := NatText(n) + rest;
    ParseNatText(n, rest);
    assert IntText(n) == NatText(n);
    assert u[0] == NatText(n)[0];
    ParseUnsigned(u, n);
  }

  lemma ParseNegativeText(n: int, rest: string)
    requires n < 0
    requires rest == [] || !IsDigit(rest[0])
    ensures ParseInt(IntText(n) + rest) == Some(n)
  {
    var m: nat := -n;
    var d := NatText(m);
    ParseNatText(m, rest);
    ParseNegative(d, rest, m);
    assert IntText(n) == "-" + d;
  }

  /** Reading back the text of an integer gives the integer, whatever non-digit text follows it. */
  lemma ParseIntText(n: int, rest: string)
    requires rest == [] || !IsDigit(rest[0])
    ensures ParseInt(IntText(n) + rest) == Some(n)
  {
    if n < 0 {
      ParseNegativeText(n, rest);
    } else {
      ParseNonNegativeText(n, rest);
    }
  }
}
