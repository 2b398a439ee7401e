/** The decimal version order of release milestone titles
    (tools/governance/roadmap-governance.ts, releaseOrderKey). */
module ReleaseVersion {
  import opened Foundation
  import opened Text

  predicate IsSpace(c: char) {
    c in "\t\n\r \U{0B}\U{0C}\U{A0}\U{1680}\U{2028}\U{2029}\U{202F}\U{205F}\U{3000}\U{FEFF}" || '\U{2000}' <= c <= '\U{200A}'
  }

  /** The white space of ECMAScript patterns, by code point. */
  lemma SpacesByCode(c: char)
    ensures IsSpace(c) <==>
      || c as int in {9, 10, 11, 12, 13, 32, 0xA0, 0x1680, 0x2028, 0x2029, 0x202F, 0x205F, 0x3000, 0xFEFF}
      || 0x2000 <= c as int <= 0x200A
  {
    var listed := "\t\n\r \U{0B}\U{0C}\U{A0}\U{1680}\U{2028}\U{2029}\U{202F}\U{205F}\U{3000}\U{FEFF}";
    assert listed[0] == '\t' && listed[1] == '\n' && listed[2] == '\r' && listed[3] == ' ';
    assert listed[4] as int == 11 && listed[5] as int == 12 && listed[6] as int == 0xA0 && listed[7] as int == 0x1680;
    assert listed[8] as int == 0x2028 && listed[9] as int == 0x2029 && listed[10] as int == 0x202F;
    assert listed[11] as int == 0x205F && listed[12] as int == 0x3000 && listed[13] as int == 0xFEFF;
  }

  function DigitRun(s: string): (n: nat)
    ensures n <= |s|
  {
    if s == [] || !IsDigit(s[0]) then 0 else 1 + DigitRun(s[1..])
  }

  datatype Version = Version(major: string, minor: string)

  /** The `v<major>.<minor>` that a title starts with, followed by white space or the end. */
  function TitleVersion(title: string): Option<Version> {
    if title == [] || title[0] != 'v' then None
    else
      var rest := title[1..];
      var m := DigitRun(rest);
      if m == 0 || m == |rest| || rest[m] != '.' then None
      else
        var tail := rest[m + 1..];
        var n := DigitRun(tail);
        if n == 0 || (n < |tail| && !IsSpace(tail[n])) then None
        else Some(Version(rest[..m], tail[..n]))
  }

  /** The value of a digit string written after a decimal point. */
  function FractionValue(digits: string): real {
    if digits == [] then 0.0 else (DigitValue(digits[0]) as real + FractionValue(digits[1..])) / 10.0
  }

  function VersionKey(version: Version): real {
    WholeValue(version.major) as real + FractionValue(version.minor)
  }

  /** The order a milestone title encodes, or None when it does not start with a version. */
  function ReleaseOrderKey(title: string): Option<real> {
    match TitleVersion(title)
    case None => None
    case Some(version) => Some(VersionKey(version))
  }

  /** Digit-by-digit order of two fractions, the shorter one padded with zeros. */
  predicate FractionLess(x: string, y: string) {
    if y == [] then false
    else if x == [] then y[0] != '0' || FractionLess(x, y[1..])
    else x[0] < y[0] || (x[0] == y[0] && FractionLess(x[1..], y[1..]))
  }

  lemma {:induction false} FractionRange(digits: string)
    requires AllDigits(digits)
    ensures 0.0 <= FractionValue(digits) < 1.0
  {
    if digits != [] {
      assert digits[0] in digits;
      FractionRange(digits[1..]);
    }
  }

  lemma {:induction false} FractionOrder(x: string, y: string)
    requires AllDigits(x) && AllDigits(y)
    ensures FractionValue(x) < FractionValue(y) <==> FractionLess(x, y)
  {
    FractionRange(x);
    FractionRange(y);
    if y != [] {
      assert y[0] in y;
      FractionRange(y[1..]);
      if x == [] {
        FractionOrder(x, y[1..]);
      } else {
        assert x[0] in x;
        FractionRange(x[1..]);
        FractionOrder(x[1..], y[1..]);
      }
    }
  }

  lemma {:induction false} DigitRunDigits(s: string)
    ensures AllDigits(s[..DigitRun(s)])
  {
    if s != [] && IsDigit(s[0]) {
      DigitRunDigits(s[1..]);
      assert s[..DigitRun(s)] == [s[0]] + s[1..][..DigitRun(s[1..])];
    }
  }

  /** Release keys order titles by whole major number and then digit by digit, so that
      `v0.35` falls between `v0.3` and `v0.4` and `v0.30` ties with `v0.3`. */
  lemma KeyOrderIsDecimalOrder(a: string, b: string)
    requires TitleVersion(a).Some? && TitleVersion(b).Some?
    ensures var (x, y) := (TitleVersion(a).value, TitleVersion(b).value);
      ReleaseOrderKey(a).value < ReleaseOrderKey(b).value <==>
      WholeValue(x.major) < WholeValue(y.major) ||
      (WholeValue(x.major) == WholeValue(y.major) && FractionLess(x.minor, y.minor))
  {
    var x, y := TitleVersion(a).value, TitleVersion(b).value;
    TitleDigits(a);
    TitleDigits(b);
    FractionRange(x.minor);
    FractionRange(y.minor);
    FractionOrder(x.minor, y.minor);
  }

  lemma TitleDigits(title: string)
    requires TitleVersion(title).Some?
    ensures AllDigits(TitleVersion(title).value.major) && AllDigits(TitleVersion(title).value.minor)
  {
    var rest := title[1..];
    DigitRunDigits(rest);
    DigitRunDigits(rest[DigitRun(rest) + 1..]);
  }

  // ---- Which titles carry a version ----

  /** `v<major>.<minor>`, followed by nothing or by white space and anything. */
  ghost predicate Titled(title: string, major: string, minor: string, rest: string) {
    && title == "v" + major + "." + minor + rest
    && major != [] && minor != [] && AllDigits(major) && AllDigits(minor)
    && (rest == [] || IsSpace(rest[0]))
  }

  lemma {:induction false} DigitRunStops(digits: string, rest: string)
    requires AllDigits(digits) && (rest == [] || !IsDigit(rest[0]))
    ensures DigitRun(digits + rest) == |digits|
  {
    if digits == [] {
      assert digits + rest == rest;
    } else {
      assert digits[0] in digits && (digits + rest)[1..] == digits[1..] + rest;
      DigitRunStops(digits[1..], rest);
    }
  }

  lemma TitleParses(title: string, major: string, minor: string, rest: string)
    requires Titled(title, major, minor, rest)
    ensures TitleVersion(title) == Some(Version(major, minor))
  {
    var tail := minor + rest;
    assert title[1..] == major + ("." + tail);
    DigitRunStops(major, "." + tail);
    assert title[1..][|major|] == '.' && title[1..][|major| + 1..] == tail;
    DigitRunStops(minor, rest);
    assert title[1..][..|major|] == major && tail[..|minor|] == minor;
  }

  lemma TitleShape(title: string) returns (rest: string)
    requires TitleVersion(title).Some?
    ensures Titled(title, TitleVersion(title).value.major, TitleVersion(title).value.minor, rest)
  {
    TitleDigits(title);
    var front := title[1..];
    var m := DigitRun(front);
    var tail := front[m + 1..];
    var n := DigitRun(tail);
    rest := tail[n..];
    assert title == ['v'] + front;
    assert front == front[..m] + ['.'] + tail;
    assert tail == tail[..n] + rest;
    Assemble(title, front, front[..m], tail, tail[..n], rest);
  }

  lemma Assemble(title: string, front: string, major: string, tail: string, minor: string, rest: string)
    requires title == ['v'] + front && front == major + ['.'] + tail && tail == minor + rest
    ensures title == "v" + major + "." + minor + rest
  {
  }

  /** A title carries a version exactly when it has this shape, and then this version. */
  lemma TitleVersionExactly(title: string, major: string, minor: string)
    ensures TitleVersion(title) == Some(Version(major, minor)) <==> exists rest :: Titled(title, major, minor, rest)
  {
    if TitleVersion(title) == Some(Version(major, minor)) {
      var rest := TitleShape(title);
    }
    if rest :| Titled(title, major, minor, rest) { TitleParses(title, major, minor, rest); }
  }

  /** Numbered titles are ordered by major number and then by the digits after the point. */
  lemma TitleOrder(t: string, u: string, major: nat, minor: string, rest: string, other: nat, digits: string, tail: string)
    requires Titled(t, Decimal(major), minor, rest) && Titled(u, Decimal(other), digits, tail)
    ensures ReleaseOrderKey(t).Some? && ReleaseOrderKey(u).Some?
    ensures ReleaseOrderKey(t).value < ReleaseOrderKey(u).value <==>
      major < other || (major == other && FractionLess(minor, digits))
  {
    TitleParses(t, Decimal(major), minor, rest);
    TitleParses(u, Decimal(other), digits, tail);
    DecimalDenotes(major);
    DecimalDenotes(other);
    KeyOrderIsDecimalOrder(t, u);
  }

  /** The documented example: `v0.35` falls between `v0.3` and `v0.4`. */
  lemma DocumentedOrder()
    ensures ReleaseOrderKey("v0.3").Some? && ReleaseOrderKey("v0.35").Some? && ReleaseOrderKey("v0.4").Some?
    ensures ReleaseOrderKey("v0.3").value < ReleaseOrderKey("v0.35").value < ReleaseOrderKey("v0.4").value
  {
    assert Decimal(0) == "0";
    assert Titled("v0.3", "0", "3", "");
    assert Titled("v0.35", "0", "35", "");
    assert Titled("v0.4", "0", "4", "");
    TitleOrder("v0.3", "v0.35", 0, "3", "", 0, "35", "");
    TitleOrder("v0.35", "v0.4", 0, "35", "", 0, "4", "");
  }
}
