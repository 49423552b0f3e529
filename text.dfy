/**
 * Text primitives shared by the server and the client: Option/Result,
 * decimal rendering and parsing of unsigned integers (Rust's `Display`
 * and `str::parse`), Rust's notion of whitespace with
 * `str::split_whitespace`, UTF-8 byte length (`str::len`) and
 * `str::split_once`.
 */
module Text {

  datatype Option<+T> = None | Some(value: T)

  datatype Result<+R, +E> = Ok(value: R) | Err(error: E)

  const U16_MAX: nat := 0xFFFF
  type u16 = x: nat | x <= U16_MAX

  const U64_MAX: nat := 0xFFFF_FFFF_FFFF_FFFF
  type u64 = x: nat | x <= U64_MAX

  const CRLF: string := "\r\n"
  const BLANK_LINE: string := "\r\n\r\n"

  // ---------------------------------------------------------------------
  // Decimal digits

  predicate IsDigit(c: char) {
    '0' <= c <= '9'
  }

  predicate AllDigits(s: string) {
    forall i :: 0 <= i < |s| ==> IsDigit(s[i])
  }

  function DigitChar(d: nat): (c: char)
    requires d < 10
    ensures IsDigit(c)
    ensures c as int - '0' as int == d
  {
    (d + '0' as int) as char
  }

  function DigitValue(c: char): (d: nat)
    requires IsDigit(c)
    ensures d < 10
    ensures DigitChar(d) == c
  {
    c as int - '0' as int
  }

  /** Decimal rendering of an unsigned integer, as Rust's `Display`: no sign, no leading zeros. */
  function ShowNat(n: nat): (s: string)
    ensures |s| >= 1 && AllDigits(s)
    ensures (s[0] == '0') <==> n == 0
    ensures n == 0 ==> s == "0"
    decreases n
  {
    if n < 10 then [DigitChar(n)] else ShowNat(n / 10) + [DigitChar(n % 10)]
  }

  /** The value of a string of decimal digits, most significant first. */
  function ParseNat(s: string): nat
    requires AllDigits(s)
    decreases |s|
  {
    if |s| == 0 then 0 else ParseNat(s[..|s| - 1]) * 10 + DigitValue(s[|s| - 1])
  }

  lemma {:induction false} ParseShowNat(n: nat)
    ensures ParseNat(ShowNat(n)) == n
    decreases n
  {
    if n >= 10 {
      var s := ShowNat(n);
      assert s == ShowNat(n / 10) + [DigitChar(n % 10)];
      assert s[..|s| - 1] == ShowNat(n / 10);
      ParseShowNat(n / 10);
    }
  }

  lemma ShowNatInjective(a: nat, b: nat)
    requires ShowNat(a) == ShowNat(b)
    ensures a == b
  {
    ParseShowNat(a);
    ParseShowNat(b);
  }

  /** Leading zeros do not change the value of a digit string. */
  lemma {:induction false} ParseLeadingZero(s: string)
    requires AllDigits(s)
    ensures AllDigits("0" + s) && ParseNat("0" + s) == ParseNat(s)
    decreases |s|
  {
    var z := "0" + s;
    if |s| > 0 {
      var init := s[..|s| - 1];
      assert z[..|z| - 1] == "0" + init;
      ParseLeadingZero(init);
    }
  }

  /** `{n:02}`: decimal rendering zero-padded to at least two digits. */
  function Pad2(n: nat): (s: string)
    ensures |s| >= 2 && AllDigits(s)
    ensures ParseNat(s) == n
    ensures n < 100 ==> |s| == 2
    ensures n >= 10 ==> s == ShowNat(n)
  {
    ParseShowNat(n);
    if n < 10 then
      ParseLeadingZero(ShowNat(n));
      "0" + ShowNat(n)
    else
      assert n < 100 ==> |ShowNat(n)| == 2 by {
        if n < 100 { assert ShowNat(n) == ShowNat(n / 10) + [DigitChar(n % 10)]; }
      }
      ShowNat(n)
  }

  // ---------------------------------------------------------------------
  // Rust's `str::parse::<u16>`

  /**
   * An optional leading '+' followed by one or more ASCII digits whose value
   * fits in 16 bits; leading zeros are accepted. Digit accumulation overflows
   * exactly when the final value exceeds the maximum, so the overflow check
   * is made on the value.
   */
  function ParseU16(t: string): (r: Option<u16>)
    ensures r.Some? ==> |t| > 0
    ensures r.Some? ==> var d := if t[0] == '+' then t[1..] else t; |d| > 0 && AllDigits(d) && r.value == ParseNat(d)
  {
    if |t| == 0 then None
    else
      var digits := if t[0] == '+' then t[1..] else t;
      if |digits| == 0 || !AllDigits(digits) then None
      else
        var v := ParseNat(digits);
        if v > U16_MAX then None else Some(v)
  }

  lemma ParseU16Show(n: nat)
    ensures ParseU16(ShowNat(n)) == if n <= U16_MAX then Some(n) else None
  {
    ParseShowNat(n);
    assert ShowNat(n)[0] != '+';
  }

  lemma ParseU16RejectsNonDigit(t: string, i: nat)
    requires 0 < i < |t| || (i == 0 < |t| && t[0] != '+')
    requires !IsDigit(t[i])
    ensures ParseU16(t) == None
  {
    if t[0] == '+' {
      assert t[1..][i - 1] == t[i];
    }
  }

  /** `n` zeros. */
  function Zeros(n: nat): (z: string)
    ensures |z| == n && AllDigits(z)
    decreases n
  {
    if n == 0 then "" else "0" + Zeros(n - 1)
  }

  /** A decimal token as `parse::<u16>` also accepts it: an optional '+', then leading zeros. */
  function DecimalToken(plus: bool, zeros: nat, n: nat): string {
    (if plus then "+" else "") + Zeros(zeros) + ShowNat(n)
  }

  lemma {:induction false} ParseZeros(zeros: nat, s: string)
    requires AllDigits(s)
    ensures AllDigits(Zeros(zeros) + s) && ParseNat(Zeros(zeros) + s) == ParseNat(s)
    decreases zeros
  {
    if zeros == 0 {
      assert Zeros(0) + s == s;
    } else {
      ParseZeros(zeros - 1, s);
      assert Zeros(zeros) + s == "0" + (Zeros(zeros - 1) + s);
      ParseLeadingZero(Zeros(zeros - 1) + s);
    }
  }

  /** A sign and leading zeros do not change what `parse::<u16>` reads. */
  lemma ParseU16Padded(plus: bool, zeros: nat, n: nat)
    ensures ParseU16(DecimalToken(plus, zeros, n)) == if n <= U16_MAX then Some(n) else None
  {
    var d := Zeros(zeros) + ShowNat(n);
    ParseShowNat(n);
    ParseZeros(zeros, ShowNat(n));
    var t := DecimalToken(plus, zeros, n);
    if plus {
      assert t == "+" + d;
      assert t[1..] == d;
    } else {
      assert t == d;
      assert IsDigit(d[0]);
    }
  }

  // ---------------------------------------------------------------------
  // Whitespace and `str::split_whitespace`

  /** Rust's `char::is_whitespace`: the Unicode White_Space property. */
  predicate IsWhitespace(c: char) {
    var u := c as int;
    (0x09 <= u <= 0x0D) || u == 0x20 || u == 0x85 || u == 0xA0 || u == 0x1680
    || (0x2000 <= u <= 0x200A) || u == 0x2028 || u == 0x2029 || u == 0x202F
    || u == 0x205F || u == 0x3000
  }

  /** A token of `split_whitespace`: non-empty, with no whitespace. */
  predicate IsWord(w: string) {
    |w| > 0 && forall i :: 0 <= i < |w| ==> !IsWhitespace(w[i])
  }

  /** Length of the leading run of non-whitespace characters. */
  function WordLen(s: string): (n: nat)
    ensures n <= |s|
    ensures forall i :: 0 <= i < n ==> !IsWhitespace(s[i])
    ensures n < |s| ==> IsWhitespace(s[n])
    decreases |s|
  {
    if |s| == 0 || IsWhitespace(s[0]) then 0 else 1 + WordLen(s[1..])
  }

  /** `str::split_whitespace`, collected: the maximal runs of non-whitespace characters, in order. */
  function Words(s: string): (ws: seq<string>)
    ensures forall k :: 0 <= k < |ws| ==> IsWord(ws[k])
    decreases |s|
  {
    if |s| == 0 then []
    else if IsWhitespace(s[0]) then Words(s[1..])
    else
      var n := WordLen(s);
      [s[..n]] + Words(s[n..])
  }

  lemma {:induction false} WordLenOfWord(w: string, rest: string)
    requires IsWord(w)
    requires rest == [] || IsWhitespace(rest[0])
    ensures WordLen(w + rest) == |w|
    decreases |w|
  {
    var s := w + rest;
    assert !IsWhitespace(s[0]);
    if |w| > 1 {
      assert s[1..] == w[1..] + rest;
      WordLenOfWord(w[1..], rest);
    } else {
      assert s[1..] == rest;
    }
  }

  /** A word followed by whitespace (or by nothing) is the first token. */
  lemma WordsCons(w: string, rest: string)
    requires IsWord(w)
    requires rest == [] || IsWhitespace(rest[0])
    ensures Words(w + rest) == [w] + Words(rest)
  {
    var s := w + rest;
    WordLenOfWord(w, rest);
    assert s[..|w|] == w;
    assert s[|w|..] == rest;
  }

  lemma WordsSkipSpace(c: char, s: string)
    requires IsWhitespace(c)
    ensures Words([c] + s) == Words(s)
  {
    assert ([c] + s)[1..] == s;
  }

  /** Tokens joined by single spaces split back into the same tokens. */
  function Unwords(ws: seq<string>): string
    decreases |ws|
  {
    if |ws| == 0 then "" else if |ws| == 1 then ws[0] else ws[0] + " " + Unwords(ws[1..])
  }

  lemma {:induction false} WordsUnwords(ws: seq<string>)
    requires forall k :: 0 <= k < |ws| ==> IsWord(ws[k])
    ensures Words(Unwords(ws)) == ws
    decreases |ws|
  {
    if |ws| == 0 {
    } else if |ws| == 1 {
      WordsCons(ws[0], "");
      assert ws[0] + "" == ws[0];
    } else {
      var tail := Unwords(ws[1..]);
      assert Unwords(ws) == ws[0] + (" " + tail);
      WordsCons(ws[0], " " + tail);
      WordsSkipSpace(' ', tail);
      WordsUnwords(ws[1..]);
      assert ws == [ws[0]] + ws[1..];
    }
  }

  predicate AllWhitespace(s: string) {
    forall i :: 0 <= i < |s| ==> IsWhitespace(s[i])
  }

  /**
   * Gaps between tokens: runs of whitespace, every one but the last
   * non-empty (the last is the trailing run, which may be empty).
   */
  predicate Gaps(gaps: seq<string>) {
    forall k :: 0 <= k < |gaps| ==> AllWhitespace(gaps[k]) && (k + 1 < |gaps| ==> |gaps[k]| > 0)
  }

  /** Each token followed by its gap. */
  function Layout(ws: seq<string>, gaps: seq<string>): string
    requires |ws| == |gaps|
    decreases |ws|
  {
    if |ws| == 0 then "" else ws[0] + gaps[0] + Layout(ws[1..], gaps[1..])
  }

  lemma {:induction false} WordsSpacePrefix(pre: string, s: string)
    requires AllWhitespace(pre)
    ensures Words(pre + s) == Words(s)
    decreases |pre|
  {
    if |pre| > 0 {
      assert pre + s == [pre[0]] + (pre[1..] + s);
      WordsSkipSpace(pre[0], pre[1..] + s);
      WordsSpacePrefix(pre[1..], s);
    } else {
      assert pre + s == s;
    }
  }

  /**
   * `split_whitespace` on any text: leading whitespace, then tokens separated
   * by non-empty runs of whitespace, then trailing whitespace, gives back
   * exactly the tokens.
   */
  lemma {:induction false} WordsLayout(pre: string, ws: seq<string>, gaps: seq<string>)
    requires AllWhitespace(pre) && |ws| == |gaps| && Gaps(gaps)
    requires forall k :: 0 <= k < |ws| ==> IsWord(ws[k])
    ensures Words(pre + Layout(ws, gaps)) == ws
    decreases |ws|
  {
    WordsSpacePrefix(pre, Layout(ws, gaps));
    if |ws| > 0 {
      var tail := Layout(ws[1..], gaps[1..]);
      assert Gaps(gaps[1..]) by {
        forall k | 0 <= k < |gaps[1..]|
          ensures AllWhitespace(gaps[1..][k]) && (k + 1 < |gaps[1..]| ==> |gaps[1..][k]| > 0)
        {
          assert gaps[1..][k] == gaps[k + 1];
        }
      }
      assert |ws| == 1 ==> tail == "";
      assert gaps[0] + tail == [] || IsWhitespace((gaps[0] + tail)[0]) by {
        if |gaps[0]| > 0 {
          assert (gaps[0] + tail)[0] == gaps[0][0];
        }
      }
      assert Layout(ws, gaps) == ws[0] + (gaps[0] + tail);
      WordsCons(ws[0], gaps[0] + tail);
      WordsLayout(gaps[0], ws[1..], gaps[1..]);
      assert ws == [ws[0]] + ws[1..];
    }
  }

  // ---------------------------------------------------------------------
  // UTF-8 byte length (`str::len`)

  function Utf8Width(c: char): (w: nat)
    ensures 1 <= w <= 4
    ensures w == 1 <==> c as int < 0x80
  {
    if c as int < 0x80 then 1 else if c as int < 0x800 then 2 else if c as int < 0x10000 then 3 else 4
  }

  function Utf8Len(s: string): (n: nat)
    ensures |s| <= n <= 4 * |s|
    ensures n == 0 <==> s == ""
    decreases |s|
  {
    if |s| == 0 then 0 else Utf8Width(s[0]) + Utf8Len(s[1..])
  }

  /** The byte length of a concatenation is the sum of the byte lengths. */
  lemma {:induction false} Utf8LenConcat(a: string, b: string)
    ensures Utf8Len(a + b) == Utf8Len(a) + Utf8Len(b)
    decreases |a|
  {
    if |a| == 0 {
      assert a + b == b;
    } else {
      assert (a + b)[0] == a[0];
      assert (a + b)[1..] == a[1..] + b;
      Utf8LenConcat(a[1..], b);
    }
  }

  predicate IsAscii(s: string) {
    forall i :: 0 <= i < |s| ==> s[i] as int < 0x80
  }

  lemma {:induction false} Utf8LenAscii(s: string)
    requires IsAscii(s)
    ensures Utf8Len(s) == |s|
    decreases |s|
  {
    if |s| > 0 {
      assert IsAscii(s[1..]) by {
        forall i | 0 <= i < |s| - 1 ensures s[1..][i] as int < 0x80 {
          assert s[1..][i] == s[i + 1];
        }
      }
      Utf8LenAscii(s[1..]);
    }
  }

  // ---------------------------------------------------------------------
  // `str::split_once`

  predicate OccursAt(s: string, sep: string, i: nat) {
    i + |sep| <= |s| && s[i..i + |sep|] == sep
  }

  /** The first position at or after `from` where `sep` occurs in `s`. */
  function IndexOfFrom(s: string, sep: string, from: nat): (r: Option<nat>)
    requires from <= |s|
    ensures r.Some? ==> from <= r.value && OccursAt(s, sep, r.value)
    ensures r.Some? ==> forall j :: from <= j < r.value ==> !OccursAt(s, sep, j)
    ensures r.None? ==> forall j :: from <= j <= |s| ==> !OccursAt(s, sep, j)
    decreases |s| - from
  {
    if from + |sep| > |s| then None
    else if s[from..from + |sep|] == sep then Some(from)
    else IndexOfFrom(s, sep, from + 1)
  }

  function IndexOf(s: string, sep: string): (r: Option<nat>)
    ensures r.Some? ==> OccursAt(s, sep, r.value)
    ensures r.Some? ==> forall j :: 0 <= j < r.value ==> !OccursAt(s, sep, j)
    ensures r.None? ==> forall j :: 0 <= j <= |s| ==> !OccursAt(s, sep, j)
  {
    IndexOfFrom(s, sep, 0)
  }

  /** `str::split_once`: the text before and after the first occurrence of `sep`. */
  function SplitOnce(s: string, sep: string): (r: Option<(string, string)>)
    ensures r.Some? ==> r.value.0 + sep + r.value.1 == s
    ensures r.Some? ==> forall j :: 0 <= j < |r.value.0| ==> !OccursAt(s, sep, j)
    ensures r.None? <==> forall j :: 0 <= j <= |s| ==> !OccursAt(s, sep, j)
  {
    match IndexOf(s, sep)
    case None => None
    case Some(i) =>
      assert s == s[..i] + s[i..i + |sep|] + s[i + |sep|..];
      Some((s[..i], s[i + |sep|..]))
  }

  /** If `sep` does not start anywhere before `n` and does start at `n`, the split is at `n`. */
  lemma SplitOnceAt(s: string, sep: string, n: nat)
    requires OccursAt(s, sep, n)
    requires forall j :: 0 <= j < n ==> !OccursAt(s, sep, j)
    ensures SplitOnce(s, sep) == Some((s[..n], s[n + |sep|..]))
  {
    var i := IndexOf(s, sep);
    assert i.Some?;
    assert i.value == n;
  }
}
