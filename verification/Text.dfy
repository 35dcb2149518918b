/** The functions of Go's strings and strconv packages that the cron parser calls. */
module Text {
  import opened Base

  const MAX_INT64 := 9223372036854775807
  const MIN_INT64 := -9223372036854775808

  predicate IsSpace(c: char) {
    || '\t' <= c <= '\r' || c == ' ' || c == '\U{0085}' || c == '\U{00A0}' || c == '\U{1680}'
    || '\U{2000}' <= c <= '\U{200A}' || c in {'\U{2028}', '\U{2029}', '\U{202F}', '\U{205F}', '\U{3000}'}
  }

  lemma SpaceInAscii(c: char)
    requires c as int < 128
    ensures IsSpace(c) <==> c as int in {9, 10, 11, 12, 13, 32}
  {}

  function TrimLeft(s: string): string {
    if s != "" && IsSpace(s[0]) then TrimLeft(s[1..]) else s
  }

  function TrimRight(s: string): string {
    if s != "" && IsSpace(s[|s| - 1]) then TrimRight(s[..|s| - 1]) else s
  }

  function TrimSpace(s: string): string {
    TrimRight(TrimLeft(s))
  }

  predicate Trimmed(s: string) {
    s == "" || (!IsSpace(s[0]) && !IsSpace(s[|s| - 1]))
  }

  lemma {:induction false} TrimLeftStops(s: string)
    ensures TrimLeft(s) == "" || !IsSpace(TrimLeft(s)[0])
  {
    if s != "" && IsSpace(s[0]) { TrimLeftStops(s[1..]); }
  }

  lemma {:induction false} TrimRightStops(s: string)
    ensures TrimRight(s) <= s
    ensures TrimRight(s) == "" || !IsSpace(TrimRight(s)[|TrimRight(s)| - 1])
  {
    if s != "" && IsSpace(s[|s| - 1]) { TrimRightStops(s[..|s| - 1]); }
  }

  lemma TrimSpaceTrims(s: string)
    ensures Trimmed(TrimSpace(s))
    ensures Trimmed(s) ==> TrimSpace(s) == s
  {
    TrimLeftStops(s);
    TrimRightStops(TrimLeft(s));
  }

  predicate AllSpace(s: string) {
    forall c :: c in s ==> IsSpace(c)
  }

  lemma {:induction false} TrimLeftDropsSpace(s: string)
    ensures exists before :: AllSpace(before) && s == before + TrimLeft(s)
  {
    hide IsSpace;
    if s != "" && IsSpace(s[0]) {
      TrimLeftDropsSpace(s[1..]);
      var before :| AllSpace(before) && s[1..] == before + TrimLeft(s[1..]);
      assert AllSpace([s[0]] + before) && s == ([s[0]] + before) + TrimLeft(s);
    } else {
      assert AllSpace("") && s == "" + TrimLeft(s);
    }
  }

  lemma {:induction false} TrimRightDropsSpace(s: string)
    ensures exists after :: AllSpace(after) && s == TrimRight(s) + after
  {
    hide IsSpace;
    if s != "" && IsSpace(s[|s| - 1]) {
      TrimRightDropsSpace(s[..|s| - 1]);
      var after :| AllSpace(after) && s[..|s| - 1] == TrimRight(s[..|s| - 1]) + after;
      assert AllSpace(after + [s[|s| - 1]]) && s == TrimRight(s) + (after + [s[|s| - 1]]);
    } else {
      assert AllSpace("") && s == TrimRight(s) + "";
    }
  }

  /** Trimming takes away space, at both ends, and nothing else. */
  lemma TrimSpaceDropsSpace(s: string)
    ensures exists before, after :: AllSpace(before) && AllSpace(after) && s == before + TrimSpace(s) + after
  {
    TrimLeftDropsSpace(s);
    TrimRightDropsSpace(TrimLeft(s));
    var before :| AllSpace(before) && s == before + TrimLeft(s);
    var after :| AllSpace(after) && TrimLeft(s) == TrimRight(TrimLeft(s)) + after;
    assert s == before + TrimSpace(s) + after;
  }

  lemma {:induction false} TrimLeftOf(before: string, s: string)
    requires AllSpace(before) && (s == "" || !IsSpace(s[0]))
    ensures TrimLeft(before + s) == s
  {
    hide IsSpace;
    if before == "" {
      assert before + s == s;
    } else {
      assert before[0] in before && (before + s)[1..] == before[1..] + s;
      TrimLeftOf(before[1..], s);
    }
  }

  lemma {:induction false} TrimRightOf(s: string, after: string)
    requires AllSpace(after) && (s == "" || !IsSpace(s[|s| - 1]))
    ensures TrimRight(s + after) == s
  {
    hide IsSpace;
    if after == "" {
      assert s + after == s;
    } else {
      var init := after[..|after| - 1];
      assert after[|after| - 1] in after && (s + after)[..|s + after| - 1] == s + init;
      TrimRightOf(s, init);
    }
  }

  /** And it takes all of it away. */
  lemma SpaceAroundIsTrimmed(before: string, s: string, after: string)
    requires AllSpace(before) && AllSpace(after) && Trimmed(s) && s != ""
    ensures TrimSpace(before + s + after) == s
  {
    assert before + s + after == before + (s + after) && (s + after)[0] == s[0];
    TrimLeftOf(before, s + after);
    TrimRightOf(s, after);
  }

  predicate HasPrefix(s: string, prefix: string) {
    prefix <= s
  }

  /** The index of the first c in s, or -1. */
  function Index(s: string, c: char): (i: int)
    ensures -1 <= i < |s|
    ensures i == -1 ==> c !in s
    ensures i >= 0 ==> s[i] == c && c !in s[..i]
  {
    if s == "" then -1
    else if s[0] == c then 0
    else
      var i := Index(s[1..], c);
      if i == -1 then -1 else i + 1
  }

  lemma {:induction false} IndexIs(s: string, c: char, i: nat)
    requires i < |s| && s[i] == c && c !in s[..i]
    ensures Index(s, c) == i
  {
    if i == 0 {
    } else {
      assert s[..i][0] == s[0] && s[1..][..i - 1] == s[..i][1..];
      IndexIs(s[1..], c, i - 1);
    }
  }

  function Join(parts: seq<string>, c: char): string
    requires parts != []
  {
    if |parts| == 1 then parts[0] else parts[0] + [c] + Join(parts[1..], c)
  }

  /** strings.Split with a separator of one character: at least one part, the empty string included. */
  function Split(s: string, c: char): (parts: seq<string>)
    ensures parts != [] && Join(parts, c) == s
    ensures forall p :: p in parts ==> c !in p
    decreases |s|
  {
    var i := Index(s, c);
    if i == -1 then [s]
    else
      assert s == s[..i] + [c] + s[i + 1..];
      [s[..i]] + Split(s[i + 1..], c)
  }

  lemma SplitOne(s: string, c: char)
    requires c !in s
    ensures Split(s, c) == [s]
  {
    hide Index;
  }

  lemma SplitTwo(a: string, b: string, c: char)
    requires c !in a && c !in b
    ensures Split(a + [c] + b, c) == [a, b]
  {
    var s := a + [c] + b;
    assert s[..|a|] == a && s[|a| + 1..] == b && s[|a|] == c;
    IndexIs(s, c, |a|);
    SplitOne(b, c);
    hide Index;
  }

  /** strings.Fields: the maximal runs of characters that are not space. */
  function Fields(s: string): (fields: seq<string>)
    ensures forall f :: f in fields ==> f != "" && forall c :: c in f ==> !IsSpace(c)
    decreases |s|
  {
    var t := TrimLeft(s);
    TrimLeftStops(s);
    TrimLeftShortens(s);
    if t == "" then []
    else
      var n := RunLength(t);
      [t[..n]] + Fields(t[n..])
  }

  lemma TrimLeftShortens(s: string)
    ensures |TrimLeft(s)| <= |s|
  {}

  function RunLength(s: string): (n: nat)
    ensures n <= |s|
    ensures forall c :: c in s[..n] ==> !IsSpace(c)
    ensures n < |s| ==> IsSpace(s[n])
    ensures s != "" && !IsSpace(s[0]) ==> n > 0
  {
    if s == "" || IsSpace(s[0]) then 0 else
      var n := RunLength(s[1..]);
      assert s[..n + 1] == [s[0]] + s[1..][..n];
      n + 1
  }

  predicate IsWord(w: string) {
    w != "" && forall c :: c in w ==> !IsSpace(c)
  }

  lemma {:induction false} RunLengthOfWord(w: string, rest: string)
    requires (forall c :: c in w ==> !IsSpace(c)) && (rest == "" || IsSpace(rest[0]))
    ensures RunLength(w + rest) == |w|
  {
    hide IsSpace;
    if w == "" {
      assert w + rest == rest;
    } else {
      assert (w + rest)[1..] == w[1..] + rest;
      RunLengthOfWord(w[1..], rest);
    }
  }

  lemma FieldsOfFirst(w: string, rest: string)
    requires IsWord(w) && (rest == "" || IsSpace(rest[0]))
    ensures Fields(w + rest) == [w] + Fields(rest)
  {
    hide IsSpace;
    RunLengthOfWord(w, rest);
    assert w[0] in w && TrimLeft(w + rest) == w + rest;
    hide RunLength, TrimLeft;
    assert (w + rest)[..|w|] == w && (w + rest)[|w|..] == rest;
  }

  lemma FieldsAfterSpace(c: char, s: string)
    requires IsSpace(c)
    ensures Fields([c] + s) == Fields(s)
  {
    assert ([c] + s)[1..] == s && TrimLeft([c] + s) == TrimLeft(s);
    hide TrimLeft, RunLength, IsSpace;
  }

  lemma JoinStep(words: seq<string>)
    requires words != []
    ensures Join(words, ' ') == words[0] + if |words| == 1 then "" else " " + Join(words[1..], ' ')
  {
    assert |words| == 1 ==> words[0] + "" == words[0];
  }

  /** Words joined by blanks come apart again. */
  lemma {:induction false} FieldsOfWords(words: seq<string>)
    requires words != [] && forall w :: w in words ==> IsWord(w)
    ensures Fields(Join(words, ' ')) == words
  {
    var w := words[0];
    assert Fields("") == [] && IsSpace(' ');
    assert words == [w] + words[1..];
    hide Fields, IsSpace, IsWord, Join;
    JoinStep(words);
    if |words| == 1 {
      FieldsOfFirst(w, "");
    } else {
      var rest := Join(words[1..], ' ');
      FieldsOfWords(words[1..]);
      FieldsOfFirst(w, " " + rest);
      FieldsAfterSpace(' ', rest);
    }
  }

  // Decimal integers.

  predicate IsDigits(s: string) {
    forall i :: 0 <= i < |s| ==> '0' <= s[i] <= '9'
  }

  function DigitsValue(s: string): (n: nat)
    requires IsDigits(s)
  {
    if s == "" then 0
    else
      var last := s[|s| - 1];
      10 * DigitsValue(s[..|s| - 1]) + (last as int - '0' as int)
  }

  /** strconv.Atoi: an optional sign and at least one digit, within 64 bits. */
  function Atoi(s: string): (r: Option<int>)
    ensures r.Some? ==> MIN_INT64 <= r.value <= MAX_INT64
  {
    var negative := s != "" && s[0] == '-';
    var digits := if s != "" && s[0] in "+-" then s[1..] else s;
    if digits == "" || !IsDigits(digits) then None
    else
      var magnitude: int := DigitsValue(digits);
      var n := if negative then -magnitude else magnitude;
      if MIN_INT64 <= n <= MAX_INT64 then Some(n) else None
  }

  function Digits(n: nat): (s: string)
    ensures s != "" && IsDigits(s)
  {
    var last := [('0' as int + n % 10) as char];
    if n < 10 then last else Digits(n / 10) + last
  }

  /** The %d format. */
  function Itoa(n: int): string {
    if n < 0 then "-" + Digits(-n) else Digits(n)
  }

  lemma {:induction false} DigitsValueOfDigits(n: nat)
    ensures DigitsValue(Digits(n)) == n
  {
    var s := Digits(n);
    if n >= 10 {
      DigitsValueOfDigits(n / 10);
      assert s[..|s| - 1] == Digits(n / 10);
    } else {
      assert s[..|s| - 1] == "";
    }
  }

  lemma AtoiOfItoa(n: int)
    requires MIN_INT64 <= n <= MAX_INT64
    ensures Atoi(Itoa(n)) == Some(n)
  {
    var magnitude := if n < 0 then -n else n;
    var digits := Digits(magnitude);
    DigitsValueOfDigits(magnitude);
    hide Digits, DigitsValue;
    if n < 0 {
      assert ("-" + digits)[1..] == digits;
    } else {
      assert '0' <= digits[0] <= '9';
    }
  }

  lemma AtoiOfDigit(c: char)
    requires '0' <= c <= '9'
    ensures Atoi([c]) == Some(c as int - '0' as int)
  {
    assert [c][..0] == "" && DigitsValue("") == 0;
    assert DigitsValue([c]) == c as int - '0' as int;
  }

  function Zeros(k: nat): (s: string)
    ensures IsDigits(s)
  {
    if k == 0 then "" else Zeros(k - 1) + "0"
  }

  /** n in decimal, with any number of zeros before it. */
  ghost predicate Padded(s: string, n: nat) {
    exists k: nat :: s == Zeros(k) + Digits(n)
  }

  /** Digits are those of their value, with zeros before them. */
  lemma {:induction false} DigitsArePadded(s: string)
    requires s != "" && IsDigits(s)
    ensures Padded(s, DigitsValue(s))
  {
    var init, last := s[..|s| - 1], s[|s| - 1];
    assert s == init + [last];
    if init == "" {
      assert DigitsValue(init) == 0 && Digits(DigitsValue(s)) == s;
      assert s == Zeros(0) + Digits(DigitsValue(s));
    } else {
      hide Padded;
      DigitsArePadded(init);
      PaddedStep(init, DigitsValue(init), last);
    }
  }

  lemma PaddedStep(init: string, n: nat, last: char)
    requires Padded(init, n) && '0' <= last <= '9'
    ensures Padded(init + [last], 10 * n + (last as int - '0' as int))
  {
    var k: nat :| init == Zeros(k) + Digits(n);
    LastDigit(n, last);
    if n == 0 { assert Zeros(k) + "0" == Zeros(k + 1); }
    hide Digits, Zeros;
    var next := 10 * n + (last as int - '0' as int);
    assert init + [last] == if n == 0 then Zeros(k + 1) + Digits(next) else Zeros(k) + Digits(next);
  }

  lemma LastDigit(n: nat, last: char)
    requires '0' <= last <= '9'
    ensures Digits(10 * n + (last as int - '0' as int)) == if n == 0 then [last] else Digits(n) + [last]
    ensures Digits(0) == "0"
  {}

  lemma {:induction false} ValueOfPadded(k: nat, s: string)
    requires s != "" && IsDigits(s)
    ensures IsDigits(Zeros(k) + s) && DigitsValue(Zeros(k) + s) == DigitsValue(s)
  {
    var init := s[..|s| - 1];
    var all := Zeros(k) + s;
    assert all[..|all| - 1] == Zeros(k) + init && all[|all| - 1] == s[|s| - 1];
    if init == "" {
      assert Zeros(k) + init == Zeros(k) && DigitsValue(init) == 0;
      ValueOfZeros(k);
    } else {
      ValueOfPadded(k, init);
    }
  }

  lemma {:induction false} ValueOfZeros(k: nat)
    ensures DigitsValue(Zeros(k)) == 0
  {
    if k > 0 {
      assert Zeros(k)[..|Zeros(k)| - 1] == Zeros(k - 1);
      ValueOfZeros(k - 1);
    }
  }

  lemma PaddedHasValue(s: string, n: nat)
    ensures Padded(s, n) <==> s != "" && IsDigits(s) && DigitsValue(s) == n
  {
    if Padded(s, n) {
      var k: nat :| s == Zeros(k) + Digits(n);
      ValueOfPadded(k, Digits(n));
      DigitsValueOfDigits(n);
      hide Digits, DigitsValue, Zeros;
    }
    if s != "" && IsDigits(s) { DigitsArePadded(s); }
  }

  /** s is n in decimal, with a sign, which may be missing if it is a plus. */
  ghost predicate IsDecimal(s: string, n: int) {
    || (n >= 0 && Padded(s, n))
    || (s != "" && s[0] == '+' && n >= 0 && Padded(s[1..], n))
    || (s != "" && s[0] == '-' && n <= 0 && Padded(s[1..], -n))
  }

  /** Atoi reads exactly the decimals of the 64-bit integers. */
  lemma AtoiReadsDecimals(s: string, n: int)
    ensures Atoi(s) == Some(n) <==> IsDecimal(s, n) && MIN_INT64 <= n <= MAX_INT64
  {
    hide Padded, DigitsValue;
    var magnitude := if n < 0 then -n else n;
    PaddedHasValue(s, magnitude);
    if s != "" {
      PaddedHasValue(s[1..], magnitude);
      assert IsDigits(s) ==> '0' <= s[0] <= '9';
    }
    hide IsDigits;
  }
}
