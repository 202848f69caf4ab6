/** Port specifications: decimal text, ranges, and the two parsers that read them. */
module PortSpecs {
  import opened Options

  datatype PortRange = PortRange(start: nat, end: nat)

  predicate IsDigit(c: char) {
    '0' <= c <= '9'
  }

  function DigitValue(c: char): nat
    requires IsDigit(c)
  {
    (c - '0') as int
  }

  predicate AllDigits(s: string) {
    forall i :: 0 <= i < |s| ==> IsDigit(s[i])
  }

  function Decimal(s: string): nat
    requires AllDigits(s)
  {
    if s == "" then 0 else Decimal(s[..|s| - 1]) * 10 + DigitValue(s[|s| - 1])
  }

  /** Unsigned 16-bit text: an optional plus sign, then at least one digit, no spaces. */
  function ParseU16(s: string): Option<nat> {
    var digits := if |s| > 0 && s[0] == '+' then s[1..] else s;
    if digits != "" && AllDigits(digits) && Decimal(digits) < 0x1_0000 then Some(Decimal(digits))
    else None
  }

  /** The characters with the Unicode White_Space property. */
  predicate IsSpace(c: char) {
    || '\U{9}' <= c <= '\U{D}' || c == ' ' || c == '\U{85}' || c == '\U{A0}' || c == '\U{1680}'
    || '\U{2000}' <= c <= '\U{200A}' || c == '\U{2028}' || c == '\U{2029}' || c == '\U{202F}'
    || c == '\U{205F}' || c == '\U{3000}'
  }

  function Trim(s: string): string {
    if s == "" then s
    else if IsSpace(s[0]) then Trim(s[1..])
    else if IsSpace(s[|s| - 1]) then Trim(s[..|s| - 1])
    else s
  }

  /** Position of the first dash, or the length. */
  function DashAt(s: string): (i: nat)
    ensures i <= |s| && (i < |s| ==> s[i] == '-') && forall j :: 0 <= j < i ==> s[j] != '-'
  {
    if s == "" then 0
    else if s[0] == '-' then 0
    else
      var i := DashAt(s[1..]);
      assert forall j :: 0 < j < i + 1 ==> s[j] == s[1..][j - 1];
      i + 1
  }

  function ParsePortRange(s: string): Option<PortRange> {
    var d := DashAt(s);
    if d < |s| then
      match (ParseU16(Trim(s[..d])), ParseU16(Trim(s[d + 1..])))
      case (Some(start), Some(end)) => Some(PortRange(start, end))
      case _ => None
    else
      match ParseU16(Trim(s))
      case Some(port) => Some(PortRange(port, port))
      case None => None
  }

  function ToText(n: nat): (s: string)
    ensures s != "" && AllDigits(s)
  {
    var c := '0' + (n % 10) as char;
    if n < 10 then [c] else ToText(n / 10) + [c]
  }

  /** What the whitelist accepts: a dash splits the text into exactly two numbers in order, without
      trimming; a text without a dash is one number and is rewritten canonically. */
  function Accepted(s: string): Option<(string, PortRange)> {
    var d := DashAt(s);
    if d < |s| then
      if DashAt(s[d + 1..]) < |s[d + 1..]| then None
      else
        match (ParseU16(s[..d]), ParseU16(s[d + 1..]))
        case (Some(start), Some(end)) => if start > end then None else Some((s, PortRange(start, end)))
        case _ => None
    else
      match ParseU16(s)
      case Some(port) => Some((ToText(port), PortRange(port, port)))
      case None => None
  }

  ghost predicate AllAccepted(specs: seq<string>) {
    specs != [] ==> AllAccepted(specs[..|specs| - 1]) && Accepted(specs[|specs| - 1]).Some?
  }

  /** The texts kept for the rule. */
  ghost function Texts(specs: seq<string>): (r: seq<string>)
    requires AllAccepted(specs)
    ensures |r| == |specs|
  {
    if specs == [] then []
    else Texts(specs[..|specs| - 1]) + [Accepted(specs[|specs| - 1]).value.0]
  }

  lemma {:induction false} AcceptedAt(specs: seq<string>, i: nat)
    requires AllAccepted(specs) && i < |specs|
    ensures Accepted(specs[i]).Some?
  {
    if i < |specs| - 1 {
      AcceptedAt(specs[..|specs| - 1], i);
    }
  }

  method AcceptSpec(spec: string) returns (r: Option<string>)
    ensures r == match Accepted(spec) { case Some((text, _)) => Some(text) case None => None }
  {
    var d := DashAt(spec);
    if d < |spec| {
      if DashAt(spec[d + 1..]) < |spec[d + 1..]| {
        return None;
      }
      var start, end := ParseU16(spec[..d]), ParseU16(spec[d + 1..]);
      if start.None? || end.None? || start.value > end.value {
        return None;
      }
      r := Some(spec);
    } else {
      var port := ParseU16(spec);
      r := if port.None? then None else Some(ToText(port.value));
    }
  }

  /** The first entry that is not acceptable makes the whole list an error. */
  method ParsePortList(specs: seq<string>) returns (r: Option<seq<string>>)
    ensures r.Some? <==> AllAccepted(specs)
    ensures r.Some? ==> r.value == Texts(specs)
  {
    var ports: seq<string> := [];
    for i := 0 to |specs|
      invariant AllAccepted(specs[..i]) && ports == Texts(specs[..i])
    {
      var port := AcceptSpec(specs[i]);
      if port.None? {
        if AllAccepted(specs) {
          AcceptedAt(specs, i);
        }
        return None;
      }
      assert specs[..i + 1][..i] == specs[..i];
      ports := ports + [port.value];
    }
    assert specs[..|specs|] == specs;
    r := Some(ports);
  }

  // --- Accepted specifications read back as what they were accepted as ---

  lemma {:induction false} DecimalOfText(n: nat)
    ensures Decimal(ToText(n)) == n
  {
    if n >= 10 {
      DecimalOfText(n / 10);
      assert ToText(n)[..|ToText(n)| - 1] == ToText(n / 10);
    }
  }

  /** The text of a number has no leading zero. */
  lemma {:induction false} TextCanonical(n: nat)
    ensures ToText(n)[0] == '0' ==> ToText(n) == "0" && n == 0
    ensures n == 0 ==> ToText(n) == "0"
  {
    if n >= 10 {
      TextCanonical(n / 10);
      assert ToText(n)[0] == ToText(n / 10)[0];
    }
  }

  lemma ParseOfText(n: nat)
    requires n < 0x1_0000
    ensures ParseU16(ToText(n)) == Some(n)
  {
    DecimalOfText(n);
    assert IsDigit(ToText(n)[0]);
  }

  /** A number contains no space, so trimming leaves it alone. */
  lemma TrimKeepsNumbers(s: string)
    requires ParseU16(s).Some?
    ensures Trim(s) == s
  {
    var digits := if s[0] == '+' then s[1..] else s;
    assert s[|s| - 1] == digits[|digits| - 1];
    assert IsDigit(s[|s| - 1]);
    assert s[0] == '+' || s[0] == digits[0];
  }

  lemma NumberHasNoDash(s: string)
    requires AllDigits(s)
    ensures DashAt(s) == |s|
  {
    if DashAt(s) < |s| {
      assert IsDigit(s[DashAt(s)]);
    }
  }

  lemma PortReadsBack(port: nat)
    requires port < 0x1_0000
    ensures ParsePortRange(ToText(port)) == Some(PortRange(port, port))
  {
    ParseOfText(port);
    TrimKeepsNumbers(ToText(port));
    NumberHasNoDash(ToText(port));
  }

  lemma RangeReadsBack(s: string)
    requires DashAt(s) < |s| && Accepted(s).Some?
    ensures ParsePortRange(s) == Some(Accepted(s).value.1)
  {
    var d := DashAt(s);
    TrimKeepsNumbers(s[..d]);
    TrimKeepsNumbers(s[d + 1..]);
  }

  /** The rule's parser gives an accepted text the meaning it was accepted with. */
  lemma AcceptedReadsBack(s: string)
    requires Accepted(s).Some?
    ensures ParsePortRange(Accepted(s).value.0) == Some(Accepted(s).value.1)
  {
    if DashAt(s) < |s| {
      RangeReadsBack(s);
    } else {
      PortReadsBack(Accepted(s).value.1.start);
    }
  }

  lemma DashAfterNumber(a: string, b: string)
    requires AllDigits(a)
    ensures DashAt(a + "-" + b) == |a|
  {
    var s := a + "-" + b;
    assert s[|a|] == '-' && forall j :: 0 <= j < |a| ==> s[j] == a[j];
    if DashAt(s) < |a| {
      assert IsDigit(a[DashAt(s)]);
    }
  }

  /** Two numbers in order and a dash between them are accepted as the range from one to the other. */
  lemma RangeTextAccepted(first: nat, last: nat)
    requires first <= last < 0x1_0000
    ensures var s := ToText(first) + "-" + ToText(last); Accepted(s) == Some((s, PortRange(first, last)))
  {
    var a, b := ToText(first), ToText(last);
    var s := a + "-" + b;
    DashAfterNumber(a, b);
    assert s[..|a|] == a && s[|a| + 1..] == b;
    NumberHasNoDash(b);
    ParseOfText(first);
    ParseOfText(last);
  }

  // --- What the parsers read, said about the text ---

  ghost predicate AllSpaces(s: string) {
    forall c <- s :: IsSpace(c)
  }

  /** The text is a number below 2^16: digits, after at most one plus sign. */
  ghost predicate Denotes(s: string, n: nat) {
    exists digits :: IsNumber(s, digits, n)
  }

  ghost predicate IsNumber(s: string, digits: string, n: nat) {
    && (s == digits || s == "+" + digits)
    && digits != "" && AllDigits(digits) && Decimal(digits) == n && n < 0x1_0000
  }

  lemma NumberExact(s: string, n: nat)
    ensures ParseU16(s) == Some(n) <==> Denotes(s, n)
  {
    if ParseU16(s) == Some(n) {
      var digits := if s[0] == '+' then s[1..] else s;
      assert s[0] == '+' ==> s == "+" + digits;
      assert IsNumber(s, digits, n);
    }
    if Denotes(s, n) {
      var digits :| IsNumber(s, digits, n);
      assert IsDigit(digits[0]);
      if s != digits {
        assert s[1..] == digits;
      }
    }
  }

  lemma PadLeft(s: string, left: string, mid: string, right: string)
    requires s != "" && s[1..] == left + mid + right
    ensures s == [s[0]] + left + mid + right
  {
    assert s == [s[0]] + s[1..];
  }

  lemma PadRight(s: string, left: string, mid: string, right: string)
    requires s != "" && s[..|s| - 1] == left + mid + right
    ensures s == left + mid + (right + [s[|s| - 1]])
  {
    assert s == s[..|s| - 1] + [s[|s| - 1]];
  }

  /** Trimming takes spaces from both ends, and all of them. */
  lemma {:induction false} TrimExact(s: string) returns (left: string, right: string)
    ensures s == left + Trim(s) + right && AllSpaces(left) && AllSpaces(right)
    ensures Trim(s) != "" ==> !IsSpace(Trim(s)[0]) && !IsSpace(Trim(s)[|Trim(s)| - 1])
  {
    left, right := "", "";
    if s != "" {
      if IsSpace(s[0]) {
        var l, r := TrimExact(s[1..]);
        PadLeft(s, l, Trim(s), r);
        left, right := [s[0]] + l, r;
      } else if IsSpace(s[|s| - 1]) {
        var l, r := TrimExact(s[..|s| - 1]);
        PadRight(s, l, Trim(s), r);
        left, right := l, r + [s[|s| - 1]];
      }
    }
  }

  lemma {:induction false} TrimPadded(left: string, s: string, right: string)
    requires AllSpaces(left) && AllSpaces(right) && s != "" && !IsSpace(s[0]) && !IsSpace(s[|s| - 1])
    ensures Trim(left + s + right) == s
  {
    var t := left + s + right;
    if left != "" {
      assert t[1..] == left[1..] + s + right && t[0] == left[0];
      TrimPadded(left[1..], s, right);
    } else if right != "" {
      assert t[..|t| - 1] == left + s + right[..|right| - 1] && t[0] == s[0];
      TrimPadded(left, s, right[..|right| - 1]);
    } else {
      assert t == s;
    }
  }

  /** The text is a number with any spaces around it. */
  ghost predicate Padded(s: string, n: nat) {
    exists left, text, right :: IsPadded(s, left, text, right, n)
  }

  ghost predicate IsPadded(s: string, left: string, text: string, right: string, n: nat) {
    s == left + text + right && AllSpaces(left) && AllSpaces(right) && Denotes(text, n)
  }

  lemma PaddedExact(s: string, n: nat)
    ensures ParseU16(Trim(s)) == Some(n) <==> Padded(s, n)
  {
    if ParseU16(Trim(s)) == Some(n) {
      var left, right := TrimExact(s);
      NumberExact(Trim(s), n);
      assert IsPadded(s, left, Trim(s), right, n);
    }
    if Padded(s, n) {
      var left, text, right :| IsPadded(s, left, text, right, n);
      NumberExact(text, n);
      NumberEnds(text);
      TrimPadded(left, text, right);
    }
  }

  ghost predicate NoDash(s: string) {
    forall j :: 0 <= j < |s| ==> s[j] != '-'
  }

  lemma NumberEnds(s: string)
    requires ParseU16(s).Some?
    ensures s != "" && !IsSpace(s[0]) && !IsSpace(s[|s| - 1]) && NoDash(s)
  {
    var digits := if s[0] == '+' then s[1..] else s;
    assert s[|s| - 1] == digits[|digits| - 1] && IsDigit(digits[|digits| - 1]) && IsDigit(digits[0]);
    forall j | 0 <= j < |s| ensures s[j] == '+' || IsDigit(s[j]) {
      if s[0] == '+' {
        assert j == 0 || s[j] == digits[j - 1];
      } else {
        assert s[j] == digits[j];
      }
    }
  }

  lemma PaddedHasNoDash(s: string, n: nat)
    requires Padded(s, n)
    ensures NoDash(s)
  {
    var left, text, right :| IsPadded(s, left, text, right, n);
    NumberExact(text, n);
    NumberEnds(text);
    forall j | 0 <= j < |s| ensures s[j] != '-' {
      if j < |left| {
        assert s[j] == left[j] && IsSpace(left[j]);
      } else if j < |left| + |text| {
        assert s[j] == text[j - |left|];
      } else {
        assert s[j] == right[j - |left| - |text|] && IsSpace(right[j - |left| - |text|]);
      }
    }
  }

  /** The first dash ends a text without one. */
  lemma SplitsAtDash(a: string, b: string)
    requires NoDash(a)
    ensures var s := a + "-" + b; DashAt(s) == |a| && s[..|a|] == a && s[|a| + 1..] == b
  {
    var s := a + "-" + b;
    assert s[|a|] == '-' && forall j :: 0 <= j < |a| ==> s[j] == a[j];
    assert s[..|a|] == a && s[|a| + 1..] == b;
  }

  lemma SplitAt(s: string, d: nat)
    requires d < |s| && s[d] == '-'
    ensures s == s[..d] + "-" + s[d + 1..]
  {
  }

  ghost predicate PaddedPair(s: string, a: string, b: string, r: PortRange) {
    s == a + "-" + b && Padded(a, r.start) && Padded(b, r.end)
  }

  ghost predicate RangeText(s: string, r: PortRange) {
    (r.start == r.end && Padded(s, r.start)) || exists a, b :: PaddedPair(s, a, b, r)
  }

  lemma PortRangeOnly(s: string, r: PortRange)
    requires ParsePortRange(s) == Some(r)
    ensures RangeText(s, r)
  {
    var d := DashAt(s);
    if d < |s| {
      var a, b := s[..d], s[d + 1..];
      SplitAt(s, d);
      PaddedExact(a, r.start);
      PaddedExact(b, r.end);
      assert PaddedPair(s, a, b, r);
    } else {
      PaddedExact(s, r.start);
    }
  }

  lemma PairRead(s: string, a: string, b: string, r: PortRange)
    requires PaddedPair(s, a, b, r)
    ensures ParsePortRange(s) == Some(r)
  {
    PaddedHasNoDash(a, r.start);
    SplitsAtDash(a, b);
    PaddedExact(a, r.start);
    PaddedExact(b, r.end);
  }

  /** The parser of rules reads a range if and only if the text is one number, or two with a dash between
      them, spaces around each number allowed. */
  lemma PortRangeExact(s: string, r: PortRange)
    ensures ParsePortRange(s) == Some(r) <==> RangeText(s, r)
  {
    if ParsePortRange(s) == Some(r) {
      PortRangeOnly(s, r);
    }
    if a, b :| PaddedPair(s, a, b, r) {
      PairRead(s, a, b, r);
    } else if RangeText(s, r) {
      PaddedHasNoDash(s, r.start);
      PaddedExact(s, r.start);
    }
  }

  ghost predicate NumberPair(s: string, a: string, b: string, r: PortRange) {
    s == a + "-" + b && Denotes(a, r.start) && Denotes(b, r.end) && r.start <= r.end
  }

  lemma AcceptedOnly(s: string, r: PortRange)
    requires Accepted(s).Some? && Accepted(s).value.1 == r
    ensures (r.start == r.end && Denotes(s, r.start)) || exists a, b :: NumberPair(s, a, b, r)
  {
    var d := DashAt(s);
    if d < |s| {
      var a, b := s[..d], s[d + 1..];
      SplitAt(s, d);
      NumberExact(a, r.start);
      NumberExact(b, r.end);
      assert NumberPair(s, a, b, r);
    } else {
      NumberExact(s, r.start);
    }
  }

  lemma PairAccepted(s: string, a: string, b: string, r: PortRange)
    requires NumberPair(s, a, b, r)
    ensures Accepted(s) == Some((s, r))
  {
    NumberExact(a, r.start);
    NumberExact(b, r.end);
    NumberEnds(a);
    NumberEnds(b);
    SplitsAtDash(a, b);
  }

  lemma NumberAccepted(s: string, n: nat)
    requires Denotes(s, n)
    ensures Accepted(s) == Some((ToText(n), PortRange(n, n)))
  {
    NumberExact(s, n);
    NumberEnds(s);
  }

  /** The whitelist accepts a text as a range if and only if it is one number, or two in order with a dash
      between them, and no spaces; the text kept is canonical for a number and unchanged for a pair. */
  lemma AcceptedExact(s: string, r: PortRange)
    ensures Accepted(s).Some? && Accepted(s).value.1 == r
       <==> (r.start == r.end && Denotes(s, r.start)) || exists a, b :: NumberPair(s, a, b, r)
    ensures r.start == r.end && Denotes(s, r.start) ==> Accepted(s) == Some((ToText(r.start), r))
    ensures (exists a, b :: NumberPair(s, a, b, r)) ==> Accepted(s) == Some((s, r))
  {
    if Accepted(s).Some? && Accepted(s).value.1 == r {
      AcceptedOnly(s, r);
    }
    if r.start == r.end && Denotes(s, r.start) {
      NumberAccepted(s, r.start);
    }
    if a, b :| NumberPair(s, a, b, r) {
      PairAccepted(s, a, b, r);
    }
  }
}
