/** The few Python `str` operations the translator and the condition parser
    rely on: prefix tests, clamped slices, `split`, `join`, `str(int)` and
    `int(str)`, each with the edge-case behaviour Python gives it. */
module Text {
  import opened Wrappers

  /** Python's `s.startswith(p)`. */
  predicate StartsWith(s: string, p: string) {
    |p| <= |s| && s[..|p|] == p
  }

  /** Python's `s[k:]`: empty once `k` passes the end. */
  function Drop(s: string, k: nat): (r: string)
    ensures |r| == if k <= |s| then |s| - k else 0
    ensures k <= |s| ==> s == s[..k] + r
  {
    if k <= |s| then s[k..] else []
  }

  /** Python's `s[:-k]` for `k > 0`: empty once `k` reaches the length. */
  function DropLast(s: string, k: nat): (r: string)
    requires k > 0
    ensures |r| == if k <= |s| then |s| - k else 0
    ensures k <= |s| ==> s == r + s[|s| - k..]
  {
    if k <= |s| then s[..|s| - k] else []
  }

  /** Python's `s[a:-b]` for `b > 0`: empty when the two ends cross. */
  function Mid(s: string, a: nat, b: nat): (r: string)
    requires b > 0
    ensures a + b <= |s| ==> s == s[..a] + r + s[|s| - b..]
    ensures a + b > |s| ==> r == []
  {
    if a + b <= |s| then s[a..|s| - b] else []
  }

  /** Python's `s.split(sep)` for a non-empty separator: the pieces between
      the non-overlapping occurrences of `sep`, found left to right. */
  function Split(s: string, sep: string): (r: seq<string>)
    requires |sep| > 0
    ensures |r| >= 1
    ensures Join(r, sep) == s
    decreases |s|
  {
    if |s| < |sep| then [s]
    else if s[..|sep|] == sep then
      var tail := Split(s[|sep|..], sep);
      assert ([[]] + tail)[1..] == tail;
      assert s == sep + s[|sep|..];
      [[]] + tail
    else
      var rest := Split(s[1..], sep);
      var r := [[s[0]] + rest[0]] + rest[1..];
      assert Join(r, sep) == [s[0]] + Join(rest, sep) by {
        if |rest| > 1 {
          assert r[1..] == rest[1..];
          assert Join(r, sep) == ([s[0]] + rest[0]) + sep + Join(rest[1..], sep);
        }
      }
      assert s == [s[0]] + s[1..];
      r
  }

  /** Python's `sep.join(pieces)`. */
  function Join(pieces: seq<string>, sep: string): string
    decreases |pieces|
  {
    if |pieces| == 0 then []
    else if |pieces| == 1 then pieces[0]
    else pieces[0] + sep + Join(pieces[1..], sep)
  }

  /** A string with no character that could start the separator is not split. */
  lemma {:induction false} SplitWithoutSeparator(s: string, sep: string)
    requires |sep| > 0
    requires sep[0] !in s
    ensures Split(s, sep) == [s]
    decreases |s|
  {
    if |s| >= |sep| {
      assert s[0] != sep[0];
      assert s[..|sep|] != sep by { assert s[..|sep|][0] == s[0]; }
      SplitWithoutSeparator(s[1..], sep);
      assert [s[0]] + s[1..] == s;
    }
  }

  /** Splitting at the first separator peels off exactly the leading piece. */
  lemma {:induction false} SplitAfterPiece(a: string, b: string, sep: string)
    requires |sep| > 0
    requires sep[0] !in a
    ensures Split(a + sep + b, sep) == [a] + Split(b, sep)
    decreases |a|
  {
    var s := a + sep + b;
    if |a| == 0 {
      assert s == sep + b;
      assert s[..|sep|] == sep;
      assert s[|sep|..] == b;
    } else {
      assert s[0] == a[0] && a[0] != sep[0];
      assert s[..|sep|] != sep by { assert s[..|sep|][0] == s[0]; }
      assert s[1..] == a[1..] + sep + b;
      SplitAfterPiece(a[1..], b, sep);
      assert [a[0]] + a[1..] == a;
    }
  }

  /** `split` undoes `join` when no piece contains the separator's first character. */
  lemma {:induction false} SplitJoin(pieces: seq<string>, sep: string)
    requires |sep| > 0
    requires |pieces| >= 1
    requires forall i :: 0 <= i < |pieces| ==> sep[0] !in pieces[i]
    ensures Split(Join(pieces, sep), sep) == pieces
    decreases |pieces|
  {
    if |pieces| == 1 {
      SplitWithoutSeparator(pieces[0], sep);
    } else {
      SplitJoin(pieces[1..], sep);
      SplitAfterPiece(pieces[0], Join(pieces[1..], sep), sep);
      assert [pieces[0]] + pieces[1..] == pieces;
    }
  }

  /** A one-character separator that occurs in `s` splits it in at least two. */
  lemma {:induction false} SplitFindsSeparator(s: string, c: char)
    requires c in s
    ensures |Split(s, [c])| >= 2
    decreases |s|
  {
    if s[..1] != [c] {
      assert s[0] != c;
      assert c in s[1..] by {
        var k :| 0 <= k < |s| && s[k] == c;
        assert s[1..][k - 1] == c;
      }
      SplitFindsSeparator(s[1..], c);
    }
  }

  /** Text free of the one-character separator stays at the front of the
      first piece. */
  lemma {:induction false} SplitHeadAppend(a: string, b: string, c: char)
    requires c !in a
    ensures Split(a + b, [c])[0] == a + Split(b, [c])[0]
    decreases |a|
  {
    if |a| > 0 {
      var s := a + b;
      assert s[..1] != [c] by { assert s[..1][0] == a[0]; }
      assert s[1..] == a[1..] + b;
      SplitHeadAppend(a[1..], b, c);
      assert [a[0]] + a[1..] == a;
    } else {
      assert a + b == b;
    }
  }

  // ---------------------------------------------------------------------
  // Decimal integers: Python's str(int) and int(str)
  // ---------------------------------------------------------------------

  const Digits: string := "0123456789"

  predicate IsDigit(c: char) {
    '0' <= c <= '9'
  }

  predicate AllDigits(s: string) {
    forall i :: 0 <= i < |s| ==> IsDigit(s[i])
  }

  /** The whitespace `int()` strips from both ends of its argument (ASCII part). */
  predicate IsSpace(c: char) {
    c == ' ' || c == '\t' || c == '\n' || c == '\r' || c == '\U{B}' || c == '\U{C}'
  }

  /** The value of a non-empty digit string, read most significant digit first. */
  function DigitsValue(s: string): (n: nat)
    requires AllDigits(s)
    decreases |s|
  {
    if |s| == 0 then 0
    else DigitsValue(s[..|s| - 1]) * 10 + (s[|s| - 1] as int - '0' as int)
  }

  /** Python's `str(n)` for `n >= 0`. */
  function NatToString(n: nat): (r: string)
    ensures |r| >= 1
    ensures AllDigits(r)
    decreases n
  {
    if n < 10 then [Digits[n]] else NatToString(n / 10) + [Digits[n % 10]]
  }

  /** Python's `str(n)`. */
  function IntToString(n: int): (r: string)
    ensures |r| >= 1
    ensures forall i :: 0 <= i < |r| ==> IsDigit(r[i]) || (i == 0 && r[i] == '-')
  {
    if n < 0 then "-" + NatToString(-n) else NatToString(n)
  }

  function TrimStart(s: string): (r: string)
    ensures |r| <= |s|
    decreases |s|
  {
    if |s| > 0 && IsSpace(s[0]) then TrimStart(s[1..]) else s
  }

  function TrimEnd(s: string): (r: string)
    ensures |r| <= |s|
    decreases |s|
  {
    if |s| > 0 && IsSpace(s[|s| - 1]) then TrimEnd(s[..|s| - 1]) else s
  }

  /** Python's `int(s)` on decimal text: surrounding whitespace, an optional
      sign and at least one digit; anything else raises `ValueError`, which is
      `None` here. */
  function ParseInt(s: string): (r: Option<int>)
    ensures r.Some? ==> |s| >= 1
    ensures |s| >= 1 && AllDigits(s) ==> r == Some(DigitsValue(s))
  {
    var t := TrimEnd(TrimStart(s));
    var negative := |t| > 0 && t[0] == '-';
    var body := if |t| > 0 && (t[0] == '-' || t[0] == '+') then t[1..] else t;
    if |body| > 0 && AllDigits(body) then
      var magnitude: int := DigitsValue(body);
      Some(if negative then -magnitude else magnitude)
    else None
  }

  /** A minus sign followed by digits reads as the negated digit value. */
  lemma ParseIntNegative(s: string)
    requires |s| >= 2 && s[0] == '-' && AllDigits(s[1..])
    ensures ParseInt(s).Some? && ParseInt(s).value == -(DigitsValue(s[1..]) as int)
  {
    assert s[1..][|s| - 2] == s[|s| - 1];
    assert TrimEnd(TrimStart(s)) == s;
  }

  /** Trimming the end leaves a prefix. */
  lemma {:induction false} TrimEndIsPrefix(s: string)
    ensures TrimEnd(s) == s[..|TrimEnd(s)|]
    decreases |s|
  {
    if |s| > 0 && IsSpace(s[|s| - 1]) {
      TrimEndIsPrefix(s[..|s| - 1]);
    }
  }

  /** Text that starts with anything but blank space, a sign or a digit is
      not a number. */
  lemma ParseIntRejects(s: string)
    requires |s| == 0 || (!IsSpace(s[0]) && !IsDigit(s[0]) && s[0] != '-' && s[0] != '+')
    ensures ParseInt(s) == None
  {
    var t := TrimEnd(TrimStart(s));
    if |s| > 0 {
      assert TrimStart(s) == s;
      TrimEndIsPrefix(s);
    }
    assert |t| > 0 ==> t[0] == s[0];
    assert |t| > 0 ==> !AllDigits(t) && t[0] != '-' && t[0] != '+' by {
      if |t| > 0 { assert !IsDigit(t[0]); }
    }
  }

  lemma {:induction false} DigitsValueOfNatToString(n: nat)
    ensures DigitsValue(NatToString(n)) == n
    decreases n
  {
    var s := NatToString(n);
    if n >= 10 {
      DigitsValueOfNatToString(n / 10);
      assert s[..|s| - 1] == NatToString(n / 10);
    }
  }

  /** `int(str(n)) == n`: the rendering is read back exactly. */
  lemma ParseIntToString(n: int)
    ensures ParseInt(IntToString(n)) == Some(n)
  {
    var s := IntToString(n);
    assert TrimStart(s) == s by { assert !IsSpace(s[0]); }
    assert TrimEnd(s) == s by { assert !IsSpace(s[|s| - 1]); }
    if n < 0 {
      var body := NatToString(-n);
      assert s == "-" + body;
      assert s[1..] == body;
      DigitsValueOfNatToString(-n);
    } else {
      assert s[0] != '-' && s[0] != '+';
      DigitsValueOfNatToString(n);
    }
  }

  /** Distinct integers render to distinct strings. */
  lemma IntToStringInjective(m: int, n: int)
    requires IntToString(m) == IntToString(n)
    ensures m == n
  {
    ParseIntToString(m);
    ParseIntToString(n);
  }
}
