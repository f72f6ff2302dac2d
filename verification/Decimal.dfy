// The decimal parser of src/ez_util.c.

module Decimal {
  import opened Words

  const UINT64_MAX := SIZE64 - 1

  // The largest number that the parser takes.
  const LARGEST := UINT64_MAX - 6

  predicate IsSpace(c: char) {
    c == ' ' || '\t' <= c <= '\r'
  }

  predicate IsDigit(c: char) {
    '0' <= c <= '9'
  }

  // White space from index `i` up to index `j`.
  ghost predicate Spaces(s: string, i: nat, j: nat)
    requires j <= |s|
  {
    forall k :: i <= k < j ==> IsSpace(s[k])
  }

  ghost predicate AllDigits(s: string) {
    forall i :: 0 <= i < |s| ==> IsDigit(s[i])
  }

  // ----- What the text says -----

  ghost function Trim(s: string): string {
    if s != [] && IsSpace(s[0]) then Trim(s[1..])
    else if s != [] && IsSpace(s[|s| - 1]) then Trim(s[..|s| - 1])
    else s
  }

  ghost function Value(s: string): nat
    requires AllDigits(s)
  {
    if s == [] then 0 else 10 * Value(s[..|s| - 1]) + (s[|s| - 1] as int - '0' as int)
  }

  // A text with white space around something that begins and ends with none.
  lemma {:induction false} TrimIs(s: string, i: nat, j: nat)
    requires i <= j <= |s| && Spaces(s, 0, i) && Spaces(s, j, |s|)
    requires i < j ==> !IsSpace(s[i]) && !IsSpace(s[j - 1])
    ensures Trim(s) == s[i..j]
    decreases |s|
  {
    hide Trim;
    if i > 0 || (j == 0 && s != []) {
      var i', j' := if i > 0 then i - 1 else 0, if i > 0 then j - 1 else 0;
      TrimIs(s[1..], i', j');
      TrimStep(s);
      assert s[1..][i'..j'] == s[i..j];
    } else if j < |s| {
      TrimIs(s[..|s| - 1], 0, j);
      TrimStep(s);
      assert s[..|s| - 1][0..j] == s[0..j];
    } else {
      TrimStep(s);
      assert s[0..|s|] == s;
    }
  }

  lemma TrimStep(s: string)
    ensures s != [] && IsSpace(s[0]) ==> Trim(s) == Trim(s[1..])
    ensures s != [] && !IsSpace(s[0]) && IsSpace(s[|s| - 1]) ==> Trim(s) == Trim(s[..|s| - 1])
    ensures s == [] || (!IsSpace(s[0]) && !IsSpace(s[|s| - 1])) ==> Trim(s) == s
  {
  }

  // The bounds of the trimmed text.
  lemma {:induction false} TrimParts(s: string) returns (i: nat, j: nat)
    ensures i <= j <= |s| && Spaces(s, 0, i) && Spaces(s, j, |s|)
    ensures i < j ==> !IsSpace(s[i]) && !IsSpace(s[j - 1])
    decreases |s|
  {
    if s != [] && IsSpace(s[0]) {
      i, j := TrimParts(s[1..]);
      assert forall k :: 0 <= k < |s| - 1 ==> s[1..][k] == s[k + 1];
      i, j := i + 1, j + 1;
      assert forall k :: 1 <= k < |s| ==> s[k] == s[1..][k - 1];
    } else if s != [] && IsSpace(s[|s| - 1]) {
      i, j := TrimParts(s[..|s| - 1]);
    } else {
      i, j := 0, |s|;
    }
  }

  lemma {:induction false} ValueGrows(s: string, n: nat)
    requires AllDigits(s) && n <= |s|
    ensures Value(s[..n]) <= Value(s)
    ensures n < |s| ==> 10 * Value(s[..n]) <= Value(s)
  {
    if n < |s| {
      var t := s[..|s| - 1];
      assert t[..n] == s[..n];
      ValueGrows(t, n);
    } else {
      assert s[..n] == s;
    }
  }

  // ----- What is printed is read back -----

  // The six characters of the source's isspace.
  lemma SpaceExactly(c: char)
    ensures IsSpace(c) <==> c as int in {9, 10, 11, 12, 13, 32}
  {
  }

  // A number in decimal notation.
  ghost function Printed(n: nat): string {
    (if n < 10 then "" else Printed(n / 10)) + [(48 + n % 10) as char]
  }

  lemma {:induction false} PrintedValue(n: nat)
    ensures Printed(n) != [] && AllDigits(Printed(n)) && Value(Printed(n)) == n
  {
    var last := [(48 + n % 10) as char];
    if n < 10 {
      assert Printed(n) == last && last[..0] == "";
    } else {
      PrintedValue(n / 10);
      assert Printed(n)[..|Printed(n)| - 1] == Printed(n / 10);
    }
  }

  // With or without white space around it and zeros in front of it. So the parser
  // gives back every number up to UINT64_MAX - 6 and refuses all larger ones.
  lemma PrintedIsRead(s: string, i: nat, z: nat, j: nat, n: nat)
    requires i <= z <= j <= |s| && Spaces(s, 0, i) && s[z..j] == Printed(n) && Spaces(s, j, |s|)
    requires forall k :: i <= k < z ==> s[k] == '0'
    ensures AllDigits(Trim(s)) && Value(Trim(s)) == n
  {
    hide Trim, Value, Printed;
    PrintedValue(n);
    assert s[j - 1] == s[z..j][j - 1 - z];
    assert forall k :: z <= k < j ==> s[k] == s[z..j][k - z];
    TrimIs(s, i, j);
    LeadingZeros(s[i..j], z - i);
    assert s[i..j][z - i..] == s[z..j];
  }

  lemma {:induction false} LeadingZeros(s: string, z: nat)
    requires AllDigits(s) && z <= |s| && forall k :: 0 <= k < z ==> s[k] == '0'
    ensures Value(s) == Value(s[z..])
    decreases |s|
  {
    if z < |s| {
      LeadingZeros(s[..|s| - 1], z);
      assert s[..|s| - 1][z..] == s[z..][..|s| - z - 1];
    } else if s != [] {
      LeadingZeros(s[..|s| - 1], z - 1);
    }
  }

  // ----- Reading it -----

  // Arithmetic of an unsigned number of 64 bits.
  function Wrap(x: int): nat {
    x % SIZE64
  }

  // ez_skip_space: `at` is where the text goes on, `len` what is left of it.
  method SkipSpace(s: string, at: nat, len: nat) returns (at': nat, len': nat)
    requires at + len == |s|
    ensures at <= at' && at' + len' == |s|
    ensures Spaces(s, at, at') && (len' > 0 ==> !IsSpace(s[at']))
  {
    at', len' := at, len;
    while len' > 0 && IsSpace(s[at'])
      invariant at <= at' && at' + len' == |s| && Spaces(s, at, at')
    {
      at', len' := at' + 1, len' - 1;
    }
  }

  // One more digit: the sum may wrap before '0' is taken off again, the number
  // does not.
  lemma OneDigit(x: nat, c: char)
    requires x < UINT64_MAX / 10 && IsDigit(c)
    ensures Wrap(Wrap(Wrap(x * 10) + c as int) - '0' as int) == 10 * x + (c as int - '0' as int) <= LARGEST
  {
  }

  // A text is taken exactly when it is, trimmed, a run of digits that is not too
  // large, and then the number is the value of the digits.
  method Strtoull(s: string) returns (ok: bool, out: nat)
    ensures ok <==> AllDigits(Trim(s)) && Value(Trim(s)) <= 0xFFFF_FFFF_FFFF_FFF9
    ensures ok ==> out == Value(Trim(s))
    ensures out < SIZE64
  {
    hide Trim;
    out := 0;
    var at, len := SkipSpace(s, 0, |s|);
    ghost var i := at;
    while len > 0 && IsDigit(s[at])
      invariant i <= at && at + len == |s| && AllDigits(s[i..at]) && out == Value(s[i..at]) <= LARGEST
    {
      if out >= UINT64_MAX / 10 {
        TooLarge(s, i, at);
        return false, out;
      }
      OneDigit(out, s[at]);
      assert s[i..at + 1] == s[i..at] + [s[at]];
      assert s[i..at + 1][..at - i] == s[i..at];
      out := Wrap(Wrap(Wrap(out * 10) + s[at] as int) - '0' as int);
      at, len := at + 1, len - 1;
    }
    ghost var j := at;
    at, len := SkipSpace(s, at, len);
    if len == 0 {
      Parsed(s, i, j);
      return true, out;
    } else {
      Spoilt(s, i, j, at);
      return false, out;
    }
  }

  lemma Parsed(s: string, i: nat, j: nat)
    requires i <= j <= |s| && Spaces(s, 0, i) && AllDigits(s[i..j]) && Spaces(s, j, |s|)
    ensures Trim(s) == s[i..j]
  {
    hide Trim;
    if i < j {
      assert IsDigit(s[i..j][0]) && IsDigit(s[i..j][j - i - 1]);
    }
    TrimIs(s, i, j);
  }

  // The trimmed text begins where the first white space ends.
  lemma TrimStart(s: string, i: nat) returns (j: nat)
    requires i < |s| && Spaces(s, 0, i) && !IsSpace(s[i])
    ensures i < j <= |s| && Trim(s) == s[i..j] && Spaces(s, j, |s|)
  {
    hide Trim;
    var k;
    k, j := TrimParts(s);
    TrimIs(s, k, j);
  }

  lemma TooLarge(s: string, i: nat, at: nat)
    requires i <= at < |s| && Spaces(s, 0, i) && !IsSpace(s[i]) && AllDigits(s[i..at]) && IsDigit(s[at])
    requires Value(s[i..at]) >= UINT64_MAX / 10
    ensures AllDigits(Trim(s)) ==> Value(Trim(s)) > LARGEST
  {
    hide Trim, Value;
    var j := TrimStart(s, i);
    var t := s[i..j];
    assert t[..at - i] == s[i..at];
    if AllDigits(t) {
      ValueGrows(t, at - i);
    }
  }

  // Something that is neither a digit nor white space, or digits apart.
  lemma Spoilt(s: string, i: nat, j: nat, at: nat)
    requires i <= j <= at < |s| && Spaces(s, 0, i) && Spaces(s, j, at)
    requires !IsSpace(s[at]) && !IsDigit(s[j]) && !IsSpace(s[i])
    ensures !AllDigits(Trim(s))
  {
    hide Trim;
    var k := TrimStart(s, i);
    assert s[i..k][j - i] == s[j];
  }
}
