/**
 * The string functions of Go's standard library that the configuration file and the address
 * text go through: decimal numbers, strings.Split, strings.SplitN(_, _, 2), strings.TrimSpace.
 */
module Text {
  import opened Common

  // ---- Decimal numbers ----

  predicate IsDigit(c: char) { '0' <= c <= '9' }

  predicate AllDigits(s: string) { forall c | c in s :: IsDigit(c) }

  function Decimal(n: nat): (s: string)
    ensures |s| >= 1 && AllDigits(s)
  {
    if n < 10 then ["0123456789"[n]] else Decimal(n / 10) + ["0123456789"[n % 10]]
  }

  function Digit(c: char): nat
    requires IsDigit(c)
  {
    c as int - '0' as int
  }

  function Value(s: string): nat
    requires AllDigits(s)
  {
    if s == "" then 0 else 10 * Value(s[..|s| - 1]) + Digit(s[|s| - 1])
  }

  /** Go's dotted-quad parser refuses a leading zero; so does this. */
  predicate Canonical(s: string) { |s| >= 1 && AllDigits(s) && (s[0] == '0' ==> |s| == 1) }

  lemma {:induction false} ValueOfDecimal(n: nat)
    ensures Value(Decimal(n)) == n && Canonical(Decimal(n)) && (Decimal(n)[0] == '0' ==> n == 0)
  {
    if n >= 10 {
      ValueOfDecimal(n / 10);
      assert Decimal(n)[..|Decimal(n)| - 1] == Decimal(n / 10);
    }
  }

  lemma DecimalSample()
    ensures Decimal(1234567890) == "1234567890" && Decimal(0) == "0"
  {
    assert Decimal(12) == "12" && Decimal(123) == "123" && Decimal(1234) == "1234" && Decimal(12345) == "12345";
    assert Decimal(123456) == "123456" && Decimal(1234567) == "1234567" && Decimal(12345678) == "12345678";
    assert Decimal(123456789) == "123456789";
  }

  lemma DigitText(c: char)
    requires IsDigit(c)
    ensures Decimal(Digit(c)) == [c] && Value([c]) == Digit(c)
  {
    assert [c][..0] == "";
  }

  lemma {:induction false} DecimalOfValue(s: string)
    requires Canonical(s)
    ensures Decimal(Value(s)) == s
    ensures |s| > 1 ==> Value(s) >= 10
  {
    hide Digit;
    var k := |s| - 1;
    if k == 0 {
      DigitText(s[0]);
      assert s == [s[0]];
    } else {
      hide Decimal, Value;
      var head := s[..k];
      CanonicalHead(s);
      DecimalOfValue(head);
      LeadingDigit(head);
      DecimalStep(Value(head), s[k]);
      ValueStep(s);
      assert s == head + [s[k]];
    }
  }

  lemma CanonicalHead(s: string)
    requires Canonical(s) && |s| > 1
    ensures Canonical(s[..|s| - 1]) && s[..|s| - 1][0] == s[0] != '0' && IsDigit(s[|s| - 1])
  {}

  lemma ValueStep(s: string)
    requires AllDigits(s) && s != ""
    ensures AllDigits(s[..|s| - 1]) && Value(s) == 10 * Value(s[..|s| - 1]) + Digit(s[|s| - 1])
  {
    hide Digit;
  }

  lemma LeadingDigit(s: string)
    requires AllDigits(s) && |s| >= 1 && s[0] != '0' && (|s| > 1 ==> Value(s) >= 10)
    ensures Value(s) >= 1
  {
    if |s| == 1 { assert s == [s[0]]; DigitText(s[0]); }
  }

  lemma DecimalStep(n: nat, c: char)
    requires n >= 1 && IsDigit(c)
    ensures Decimal(10 * n + Digit(c)) == Decimal(n) + [c]
  {
    assert "0123456789"[Digit(c)] == c;
    assert (10 * n + Digit(c)) / 10 == n && (10 * n + Digit(c)) % 10 == Digit(c);
  }

  // ---- strings.Split with a one-character separator ----

  function Split(s: string, sep: char): (fields: seq<string>)
    ensures |fields| >= 1
  {
    if s == "" then [""]
    else
      var rest := Split(s[1..], sep);
      if s[0] == sep then [""] + rest else [[s[0]] + rest[0]] + rest[1..]
  }

  function Join(fields: seq<string>, sep: char): string
    requires |fields| >= 1
  {
    if |fields| == 1 then fields[0] else fields[0] + [sep] + Join(fields[1..], sep)
  }

  lemma {:induction false} JoinSplit(s: string, sep: char)
    ensures Join(Split(s, sep), sep) == s
    ensures forall f | f in Split(s, sep) :: sep !in f
  {
    if s != "" {
      JoinSplit(s[1..], sep);
      var rest := Split(s[1..], sep);
      assert s == [s[0]] + s[1..];
      if s[0] == sep {
        assert Split(s, sep)[1..] == rest;
      } else {
        JoinLonger(rest, s[0], sep);
      }
    }
  }

  /** A character before the first field. */
  lemma JoinLonger(fields: seq<string>, c: char, sep: char)
    requires |fields| >= 1
    ensures Join([[c] + fields[0]] + fields[1..], sep) == [c] + Join(fields, sep)
  {
    var longer := [[c] + fields[0]] + fields[1..];
    assert longer[1..] == fields[1..];
    if |fields| > 1 {
      assert [c] + fields[0] + [sep] + Join(fields[1..], sep) == [c] + (fields[0] + [sep] + Join(fields[1..], sep));
    }
  }

  lemma {:induction false} SplitOne(f: string, sep: char)
    requires sep !in f
    ensures Split(f, sep) == [f]
  {
    if f != "" { SplitOne(f[1..], sep); assert f == [f[0]] + f[1..]; }
  }

  lemma {:induction false} SplitFirst(f: string, sep: char, rest: string)
    requires sep !in f
    ensures Split(f + [sep] + rest, sep) == [f] + Split(rest, sep)
  {
    var s := f + [sep] + rest;
    if f == "" {
      assert s[1..] == rest;
    } else {
      SplitFirst(f[1..], sep, rest);
      assert s[1..] == f[1..] + [sep] + rest;
      assert f == [f[0]] + f[1..];
      var inner := Split(s[1..], sep);
      assert inner[0] == f[1..] && inner[1..] == Split(rest, sep);
    }
  }

  lemma {:induction false} SplitJoin(fields: seq<string>, sep: char)
    requires |fields| >= 1 && forall f | f in fields :: sep !in f
    ensures Split(Join(fields, sep), sep) == fields
  {
    if |fields| == 1 {
      SplitOne(fields[0], sep);
    } else {
      SplitJoin(fields[1..], sep);
      SplitFirst(fields[0], sep, Join(fields[1..], sep));
    }
  }

  // ---- strings.SplitN(line, "=", 2) ----

  /** The text before and after the first `sep`; None when there is no `sep`. */
  function Cut(s: string, sep: char): Option<(string, string)> {
    if s == "" then None
    else if s[0] == sep then Some(("", s[1..]))
    else match Cut(s[1..], sep)
      case None => None
      case Some((before, after)) => Some(([s[0]] + before, after))
  }

  lemma {:induction false} CutAt(before: string, sep: char, after: string)
    requires sep !in before
    ensures Cut(before + [sep] + after, sep) == Some((before, after))
  {
    var s := before + [sep] + after;
    if before == "" {
      assert s[1..] == after;
    } else {
      CutAt(before[1..], sep, after);
      assert s[1..] == before[1..] + [sep] + after;
      assert before == [before[0]] + before[1..];
    }
  }

  // ---- strings.TrimSpace ----

  predicate IsSpace(c: char) {
    c == ' ' || '\t' <= c <= '\r' || c == '\U{0085}' || c == '\U{00A0}'
  }

  function TrimLeft(s: string): string {
    if s != "" && IsSpace(s[0]) then TrimLeft(s[1..]) else s
  }

  function TrimRight(s: string): string {
    if s != "" && IsSpace(s[|s| - 1]) then TrimRight(s[..|s| - 1]) else s
  }

  function Trim(s: string): string { TrimRight(TrimLeft(s)) }

  predicate Trimmed(s: string) { s != "" ==> !IsSpace(s[0]) && !IsSpace(s[|s| - 1]) }

  lemma WithoutSpaces(s: string)
    requires forall c | c in s :: !IsSpace(c)
    ensures Trimmed(s)
  {
    if s != "" { assert s[0] in s && s[|s| - 1] in s; }
  }

  lemma {:induction false} TrimOneSpace(s: string)
    requires Trimmed(s)
    ensures Trim(s) == s && Trim(" " + s) == s && Trim(s + " ") == s
  {
    assert (" " + s)[1..] == s;
    if s == "" {
      assert " "[1..] == "" && s + " " == " ";
    } else {
      assert TrimLeft(s + " ") == s + " ";
      assert (s + " ")[..|s|] == s;
    }
  }

  /** A printed line "key = value" gives back its key and its value. */
  lemma CutAssignment(key: string, value: string)
    requires key != "" && Trimmed(key) && '=' !in key && Trimmed(value)
    ensures Cut(key + " = " + value, '=') == Some((key + " ", " " + value))
    ensures Trim(key + " ") == key && Trim(" " + value) == value
  {
    assert key + " = " + value == (key + " ") + ['='] + (" " + value);
    CutAt(key + " ", '=', " " + value);
    TrimOneSpace(key);
    TrimOneSpace(value);
  }
}
