/** Text order and identities shared by the governance tools.

    Strings are sequences of Unicode scalar values. The tools compare UTF-8 encodings byte by byte;
    that order is proved to be the order of the scalar values. */
module Text {
  import opened Sorting

  /** Three-way comparison: negative, zero or positive. */
  function CompareText(left: string, right: string): (c: int)
    ensures -1 <= c <= 1
  {
    if left == [] then (if right == [] then 0 else -1)
    else if right == [] then 1
    else if left[0] < right[0] then -1
    else if right[0] < left[0] then 1
    else CompareText(left[1..], right[1..])
  }

  lemma {:induction false} CompareTextZero(left: string, right: string)
    ensures CompareText(left, right) == 0 <==> left == right
  {
    if left != [] && right != [] {
      CompareTextZero(left[1..], right[1..]);
      assert left == [left[0]] + left[1..];
      assert right == [right[0]] + right[1..];
    }
  }

  lemma {:induction false} CompareTextFlip(left: string, right: string)
    ensures CompareText(left, right) == -CompareText(right, left)
  {
    if left != [] && right != [] {
      CompareTextFlip(left[1..], right[1..]);
    }
  }

  lemma {:induction false} CompareTextTransitive(a: string, b: string, c: string)
    requires CompareText(a, b) <= 0 && CompareText(b, c) <= 0
    ensures CompareText(a, c) <= 0
    ensures CompareText(a, b) < 0 || CompareText(b, c) < 0 ==> CompareText(a, c) < 0
  {
    if a != [] && b != [] && c != [] && a[0] == b[0] == c[0] {
      CompareTextTransitive(a[1..], b[1..], c[1..]);
    }
  }

  lemma TextOrder(dom: set<string>)
    ensures StrictOrder(CompareText, dom)
  {
    forall a, b | a in dom && b in dom
      ensures CompareText(a, b) <= 0 <==> CompareText(b, a) >= 0
      ensures CompareText(a, b) == 0 <==> a == b
    {
      CompareTextFlip(a, b);
      CompareTextZero(a, b);
    }
    forall a, b, c | a in dom && b in dom && c in dom && CompareText(a, b) <= 0 && CompareText(b, c) <= 0
      ensures CompareText(a, c) <= 0
    {
      CompareTextTransitive(a, b, c);
    }
  }

  // ---- UTF-8 ----

  /** The UTF-8 encoding of one scalar value, as byte values. */
  function Utf8(c: char): (bytes: seq<int>)
    ensures 1 <= |bytes| <= 4
  {
    var n := c as int;
    if n < 0x80 then [n]
    else if n < 0x800 then [0xC0 + n / 64, 0x80 + n % 64]
    else if n < 0x10000 then [0xE0 + n / 4096, 0x80 + n / 64 % 64, 0x80 + n % 64]
    else [0xF0 + n / 262144, 0x80 + n / 4096 % 64, 0x80 + n / 64 % 64, 0x80 + n % 64]
  }

  function Encode(s: string): seq<int> {
    if s == [] then [] else Utf8(s[0]) + Encode(s[1..])
  }

  /** Byte-by-byte comparison: the first differing byte decides, and a proper prefix comes first. */
  function CompareBytes(left: seq<int>, right: seq<int>): int {
    if left == [] then (if right == [] then 0 else -1)
    else if right == [] then 1
    else if left[0] != right[0] then (if left[0] < right[0] then -1 else 1)
    else CompareBytes(left[1..], right[1..])
  }

  /** Taking a number apart in base 64. */
  lemma Base64(n: nat)
    ensures n == n / 64 * 64 + n % 64 && 0 <= n % 64 < 64
    ensures n / 64 == n / 4096 * 64 + n / 64 % 64 && n / 4096 == n / 262144 * 64 + n / 4096 % 64
  {
  }

  /** The number of bytes grows with the scalar value, and the first byte tells it. */
  lemma LeadByte(c: char)
    ensures var (n, lead) := (c as int, Utf8(c)[0]);
      if n < 0x80 then lead < 0x80
      else if n < 0x800 then 0xC0 <= lead < 0xE0
      else if n < 0x10000 then 0xE0 <= lead < 0xF0
      else 0xF0 <= lead
  {
  }

  predicate SameWidth(n: int, m: int) {
    (n < 0x80 <==> m < 0x80) && (n < 0x800 <==> m < 0x800) && (n < 0x10000 <==> m < 0x10000)
  }

  /** Where the encodings of two scalar values first differ. */
  lemma FirstDifference(c: char, d: char) returns (i: nat)
    requires c < d
    ensures i < |Utf8(c)| && i < |Utf8(d)| && Utf8(c)[..i] == Utf8(d)[..i] && Utf8(c)[i] < Utf8(d)[i]
  {
    if SameWidth(c as int, d as int) {
      i := SameWidthDifference(c, d);
    } else {
      LeadByte(c);
      LeadByte(d);
      i := 0;
    }
  }

  lemma SameWidthDifference(c: char, d: char) returns (i: nat)
    requires c < d && SameWidth(c as int, d as int)
    ensures i < |Utf8(c)| && i < |Utf8(d)| && Utf8(c)[..i] == Utf8(d)[..i] && Utf8(c)[i] < Utf8(d)[i]
  {
    var n, m := c as int, d as int;
    Base64(n);
    Base64(m);
    if n < 0x80 {
      i := 0;
    } else if n < 0x800 {
      i := if n / 64 < m / 64 then 0 else 1;
    } else if n < 0x10000 {
      i := if n / 4096 < m / 4096 then 0 else if n / 64 % 64 < m / 64 % 64 then 1 else 2;
    } else {
      i := if n / 262144 < m / 262144 then 0 else if n / 4096 % 64 < m / 4096 % 64 then 1
        else if n / 64 % 64 < m / 64 % 64 then 2 else 3;
    }
  }

  lemma {:induction false} DecidedAt(x: seq<int>, y: seq<int>, i: nat)
    requires i < |x| && i < |y| && x[..i] == y[..i] && x[i] < y[i]
    ensures CompareBytes(x, y) == -1 && CompareBytes(y, x) == 1
  {
    if i > 0 {
      assert x[0] == x[..i][0] && y[0] == y[..i][0];
      assert x[1..][..i - 1] == x[..i][1..] && y[1..][..i - 1] == y[..i][1..];
      DecidedAt(x[1..], y[1..], i - 1);
    }
  }

  lemma {:induction false} DecidedBehind(p: seq<int>, x: seq<int>, y: seq<int>)
    ensures CompareBytes(p + x, p + y) == CompareBytes(x, y)
  {
    if p == [] {
      assert p + x == x && p + y == y;
    } else {
      assert (p + x)[1..] == p[1..] + x && (p + y)[1..] == p[1..] + y;
      DecidedBehind(p[1..], x, y);
    }
  }

  lemma EncodingsDiffer(a: string, b: string)
    requires a != [] && b != [] && a[0] < b[0]
    ensures CompareBytes(Encode(a), Encode(b)) == -1 && CompareBytes(Encode(b), Encode(a)) == 1
  {
    var i := FirstDifference(a[0], b[0]);
    var x, y := Encode(a), Encode(b);
    assert x[..i] == Utf8(a[0])[..i] && y[..i] == Utf8(b[0])[..i];
    assert x[i] == Utf8(a[0])[i] && y[i] == Utf8(b[0])[i];
    DecidedAt(x, y, i);
  }

  /** The text comparator is the byte order of the UTF-8 encodings. */
  lemma {:induction false} CompareTextIsByteOrder(a: string, b: string)
    ensures CompareText(a, b) == CompareBytes(Encode(a), Encode(b))
  {
    if a != [] && b != [] {
      if a[0] == b[0] {
        CompareTextIsByteOrder(a[1..], b[1..]);
        DecidedBehind(Utf8(a[0]), Encode(a[1..]), Encode(b[1..]));
      } else if a[0] < b[0] {
        EncodingsDiffer(a, b);
      } else {
        EncodingsDiffer(b, a);
      }
    }
  }

  /** The members of a set in text order. */
  method SortedText(s: set<string>) returns (r: seq<string>)
    ensures Elements(r) == s && NoDuplicates(r) && Sorted(CompareText, r)
  {
    r := Enumerate(s);
    TextOrder(s);
    SortSorts(CompareText, r, s);
    r := Sort(CompareText, r);
  }

  function Decimal(n: nat): (s: string)
    ensures s != []
  {
    var digit := [('0' as int + n % 10) as char];
    if n < 10 then digit else Decimal(n / 10) + digit
  }

  // ---- Numerals ----

  predicate IsDigit(c: char) { '0' <= c <= '9' }

  predicate AllDigits(s: string) { forall c | c in s :: IsDigit(c) }

  function DigitValue(c: char): (d: int)
    ensures IsDigit(c) ==> 0 <= d <= 9
  {
    c as int - '0' as int
  }

  function WholeValue(digits: string): int {
    if digits == [] then 0 else WholeValue(digits[..|digits| - 1]) * 10 + DigitValue(digits[|digits| - 1])
  }

  /** A decimal numeral consists of digits and denotes its number. */
  lemma {:induction false} DecimalDenotes(n: nat)
    ensures AllDigits(Decimal(n)) && WholeValue(Decimal(n)) == n
  {
    if n >= 10 {
      DecimalDenotes(n / 10);
      assert Decimal(n)[..|Decimal(n)| - 1] == Decimal(n / 10);
    }
  }

  /** Leading zeros do not count. */
  lemma {:induction false} LeadingZeros(digits: string)
    ensures WholeValue("0" + digits) == WholeValue(digits)
  {
    if digits == [] {
      assert "0" + digits == "0" && WholeValue("0"[..0]) == 0;
    } else {
      LeadingZeros(digits[..|digits| - 1]);
      assert ("0" + digits)[..|digits|] == "0" + digits[..|digits| - 1];
    }
  }

  /** Issues are identified by `<repository>#<number>`. */
  type IssueKey = string

  function KeyOf(repository: string, number: nat): IssueKey {
    repository + "#" + Decimal(number)
  }

  /** An issue key names its repository and its number. */
  lemma KeyNamesIssue(repository: string, number: nat, other: string, n: nat)
    ensures KeyOf(repository, number) == KeyOf(other, n) <==> repository == other && number == n
  {
    DecimalDenotes(number);
    DecimalDenotes(n);
    if KeyOf(repository, number) == KeyOf(other, n) {
      SameStem(repository, Decimal(number), other, Decimal(n));
      assert KeyOf(repository, number)[|repository| + 1..] == Decimal(number);
      assert KeyOf(other, n)[|other| + 1..] == Decimal(n);
    }
  }

  lemma SameStem(a: string, x: string, b: string, y: string)
    requires AllDigits(x) && AllDigits(y) && a + "#" + x == b + "#" + y
    ensures a == b
  {
    var s, t := a + "#" + x, b + "#" + y;
    LastHash(a, x);
    LastHash(b, y);
    assert s[|a|] == '#' && t[|b|] == '#';
    assert s[..|a|] == a && t[..|b|] == b;
  }

  lemma LastHash(a: string, x: string)
    requires AllDigits(x)
    ensures var s := a + "#" + x; forall k | |a| < k < |s| :: s[k] != '#'
  {
    var s := a + "#" + x;
    forall k | |a| < k < |s| ensures s[k] != '#' {
      assert s[k] == x[k - |a| - 1] && x[k - |a| - 1] in x;
    }
  }
}
