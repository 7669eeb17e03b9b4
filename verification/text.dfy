/** The pieces of Python's text handling that the ledger relies on:
    `str(int)` for non-negative and signed integers, `int(token)`,
    `text.split()` with no argument, and `sep.join(parts)`. */
module Text {
  import opened Outcomes

  predicate IsDigit(c: char) {
    '0' <= c <= '9'
  }

  predicate AllDigits(s: string) {
    forall i :: 0 <= i < |s| ==> IsDigit(s[i])
  }

  function DigitChar(d: nat): char
    requires d < 10
  {
    ('0' as int + d) as char
  }

  function DigitValue(c: char): nat
    requires IsDigit(c)
  {
    c as int - '0' as int
  }

  /** `str(x)` for a non-negative integer: its shortest decimal text. */
  function NatToDecimal(x: nat): (s: string)
    ensures |s| >= 1 && AllDigits(s)
    ensures s[0] == '0' ==> s == "0"
    decreases x
  {
    if x < 10 then [DigitChar(x)] else NatToDecimal(x / 10) + [DigitChar(x % 10)]
  }

  /** The number a string of decimal digits denotes (leading zeros allowed). */
  function DecimalValue(s: string): nat
    requires AllDigits(s)
    decreases |s|
  {
    if s == [] then 0 else DecimalValue(s[..|s| - 1]) * 10 + DigitValue(s[|s| - 1])
  }

  /** Reading back the decimal text of a number gives the number. */
  lemma {:induction false} DecimalRoundTrip(x: nat)
    ensures DecimalValue(NatToDecimal(x)) == x
    decreases x
  {
    if x >= 10 {
      var s := NatToDecimal(x);
      DecimalRoundTrip(x / 10);
      assert s[..|s| - 1] == NatToDecimal(x / 10);
    }
  }

  function Pow10(d: nat): nat {
    if d == 0 then 1 else 10 * Pow10(d - 1)
  }

  /** A number below `10^d` has at most `d` decimal digits. */
  lemma {:induction false} DecimalLength(v: nat, d: nat)
    requires d >= 1 && v < Pow10(d)
    ensures |NatToDecimal(v)| <= d
    decreases d
  {
    if v >= 10 {
      DecimalLength(v / 10, d - 1);
    }
  }

  /** `str(x)` (and an f-string field) for any integer. */
  function IntToDecimal(x: int): string {
    if x < 0 then "-" + NatToDecimal(-x) else NatToDecimal(x)
  }

  /** A token with one leading sign character removed, if it has one. */
  function Unsigned(t: string): string {
    if |t| >= 1 && (t[0] == '-' || t[0] == '+') then t[1..] else t
  }

  /** CPython's default limit on the number of digits `int()` reads from a
      text (and `str()` writes for an integer); longer ones raise `ValueError`. */
  const MaxStrDigits: nat := 4300

  /** `int(token)`: an optional sign followed by at least one and at most
      `MaxStrDigits` ASCII digits.  Anything else raises `ValueError`,
      represented here by `None`. */
  function ParseInt(t: string): (r: Option<int>)
    ensures r.Some? <==> 1 <= |Unsigned(t)| <= MaxStrDigits && AllDigits(Unsigned(t))
    ensures r.Some? ==> r.value == if t[0] == '-' then -(DecimalValue(Unsigned(t)) as int) else DecimalValue(Unsigned(t))
  {
    if 1 <= |t| <= MaxStrDigits && AllDigits(t) then Some(DecimalValue(t))
    else if 2 <= |t| <= MaxStrDigits + 1 && t[0] == '-' && AllDigits(t[1..]) then Some(-(DecimalValue(t[1..]) as int))
    else if 2 <= |t| <= MaxStrDigits + 1 && t[0] == '+' && AllDigits(t[1..]) then Some(DecimalValue(t[1..]))
    else None
  }

  /** `int(str(x)) == x` whenever `str(x)` is within the digit limit (beyond
      it, `str(x)` itself raises). */
  lemma ParseIntDecimal(x: int)
    requires |NatToDecimal(if x < 0 then -x else x)| <= MaxStrDigits
    ensures ParseInt(IntToDecimal(x)) == Some(x)
  {
    if x < 0 {
      var t := IntToDecimal(x);
      assert t[1..] == NatToDecimal(-x);
      assert !IsDigit(t[0]);
      DecimalRoundTrip(-x);
    } else {
      DecimalRoundTrip(x);
    }
  }

  /** The characters for which Python's `str.isspace()` holds; `split()`
      with no argument separates words at runs of them. */
  predicate IsSpace(c: char) {
    var k := c as int;
    || 0x09 <= k <= 0x0D || 0x1C <= k <= 0x20 || k == 0x85 || k == 0xA0
    || k == 0x1680 || 0x2000 <= k <= 0x200A || k == 0x2028 || k == 0x2029
    || k == 0x202F || k == 0x205F || k == 0x3000
  }

  predicate NoSpace(s: string) {
    forall i :: 0 <= i < |s| ==> !IsSpace(s[i])
  }

  /** A word `split()` can return: non-empty and free of white space. */
  predicate IsWord(w: string) {
    |w| >= 1 && NoSpace(w)
  }

  /** `split()` over the rest `s` of the text, `word` being the word read so far. */
  function SplitFrom(s: string, word: string): (r: seq<string>)
    requires NoSpace(word)
    ensures forall i :: 0 <= i < |r| ==> IsWord(r[i])
    decreases |s|
  {
    if s == [] then
      (if word == [] then [] else [word])
    else if IsSpace(s[0]) then
      (if word == [] then [] else [word]) + SplitFrom(s[1..], [])
    else
      SplitFrom(s[1..], word + [s[0]])
  }

  /** `s.split()`: the maximal runs of non-space characters, in order. */
  function Split(s: string): (r: seq<string>)
    ensures forall i :: 0 <= i < |r| ==> IsWord(r[i])
  {
    SplitFrom(s, [])
  }

  /** `sep.join(parts)`. */
  function JoinWith(parts: seq<string>, sep: string): string
    decreases |parts|
  {
    if |parts| == 0 then ""
    else if |parts| == 1 then parts[0]
    else parts[0] + sep + JoinWith(parts[1..], sep)
  }

  /** Reading a space-free stretch only extends the current word. */
  lemma {:induction false} SplitFromWord(w: string, rest: string, word: string)
    requires NoSpace(w) && NoSpace(word)
    ensures SplitFrom(w + rest, word) == SplitFrom(rest, word + w)
    decreases |w|
  {
    if w == [] {
      assert w + rest == rest;
      assert word + w == word;
    } else {
      assert (w + rest)[1..] == w[1..] + rest;
      SplitFromWord(w[1..], rest, word + [w[0]]);
      assert word + [w[0]] + w[1..] == word + w;
    }
  }

  /** `" ".join(words).split() == words` whenever every part is a word. */
  lemma {:induction false} SplitJoin(parts: seq<string>)
    requires forall i :: 0 <= i < |parts| ==> IsWord(parts[i])
    ensures Split(JoinWith(parts, " ")) == parts
    decreases |parts|
  {
    if |parts| == 1 {
      SplitFromWord(parts[0], [], []);
      assert parts[0] + [] == parts[0];
    } else if |parts| > 1 {
      var tail := JoinWith(parts[1..], " ");
      assert JoinWith(parts, " ") == parts[0] + (" " + tail);
      SplitFromWord(parts[0], " " + tail, []);
      assert [] + parts[0] == parts[0];
      assert (" " + tail)[1..] == tail;
      assert SplitFrom(" " + tail, parts[0]) == [parts[0]] + SplitFrom(tail, []);
      SplitJoin(parts[1..]);
    }
  }

  /** `"".join` turns concatenation of the part lists into concatenation of the texts. */
  lemma {:induction false} JoinAppend(a: seq<string>, b: seq<string>)
    ensures JoinWith(a + b, "") == JoinWith(a, "") + JoinWith(b, "")
    decreases |a|
  {
    if |a| == 1 {
      if |b| != 0 {
        assert (a + b)[1..] == b;
      }
    } else if |a| > 1 {
      assert (a + b)[1..] == a[1..] + b;
      JoinAppend(a[1..], b);
    } else {
      assert a + b == b;
    }
  }

  /** Gluing non-empty digit strings together yields digits only, at least one per part. */
  lemma {:induction false} JoinDigits(parts: seq<string>)
    requires forall i :: 0 <= i < |parts| ==> |parts[i]| >= 1 && AllDigits(parts[i])
    ensures AllDigits(JoinWith(parts, ""))
    ensures |JoinWith(parts, "")| >= |parts|
    decreases |parts|
  {
    if |parts| > 1 {
      JoinDigits(parts[1..]);
    }
  }

  /** A digit string contains no white space. */
  lemma DigitsAreNotSpace(s: string)
    requires AllDigits(s)
    ensures NoSpace(s)
  {
  }
}
