/**
 * String helpers shared by the PHP and TypeScript sides of the model:
 * `explode`/`implode` on a separator, prefix and substring tests, PHP's
 * truthiness of strings, decimal formatting of integers, ASCII case mapping
 * and the byte-wise ordering used when route names are sorted.
 */
module Text {
  import opened Wrappers
  import opened Collections

  predicate StartsWith(s: string, prefix: string) {
    |prefix| <= |s| && s[..|prefix|] == prefix
  }

  /** `s` is `prefix` followed by at least one more character. */
  predicate OpensWith(s: string, prefix: string) {
    |prefix| < |s| && StartsWith(s, prefix)
  }

  /** `str_starts_with($s, $p)` for at least one `$p` of `prefixes`. */
  predicate StartsWithAny(s: string, prefixes: seq<string>) {
    exists i :: 0 <= i < |prefixes| && StartsWith(s, prefixes[i])
  }

  /** `sub` occurs in `s` as a contiguous substring. */
  predicate Contains(s: string, sub: string)
    decreases |s|
  {
    StartsWith(s, sub) || (s != [] && Contains(s[1..], sub))
  }

  /** PHP treats the strings "" and "0" as false (`empty`, `!`, `if ($s)`). */
  predicate PhpFalsy(s: string) {
    s == "" || s == "0"
  }

  /** A nullable PHP string that is truthy: not null, not "" and not "0". */
  predicate PhpTruthy(o: Option<string>) {
    o.Some? && !PhpFalsy(o.value)
  }

  /** The characters PHP's `trim` removes by default. */
  predicate IsPhpSpace(c: char) {
    c == ' ' || c == '\t' || c == '\n' || c == '\r' || c == '\0' || c == '\U{B}'
  }

  /**
   * Laravel's `$request->filled($key)`: the input is present and does not
   * trim to the empty string.
   */
  predicate Filled(o: Option<string>) {
    o.Some? && exists i :: 0 <= i < |o.value| && !IsPhpSpace(o.value[i])
  }

  // ---------------------------------------------------------------------
  // explode / implode
  // ---------------------------------------------------------------------

  /**
   * PHP's `explode($sep, $s)`: the pieces of `s` between occurrences of
   * `sep`. Defined by peeling the last character, so that appending a
   * separator starts a new piece.
   */
  function Split(s: string, sep: char): (parts: seq<string>)
    ensures |parts| >= 1
    decreases |s|
  {
    if s == [] then [""]
    else Push(Split(s[..|s| - 1], sep), s[|s| - 1], sep)
  }

  /** Reading one more character: a separator opens a new piece, anything else extends the last one. */
  function Push(pieces: seq<string>, c: char, sep: char): (r: seq<string>)
    requires |pieces| >= 1
    ensures |r| >= 1
  {
    if c == sep then pieces + [""]
    else pieces[..|pieces| - 1] + [pieces[|pieces| - 1] + [c]]
  }

  /** PHP's `implode($sep, $parts)` for a non-empty list. */
  function Join(parts: seq<string>, sep: char): string
    requires |parts| >= 1
    decreases |parts|
  {
    if |parts| == 1 then parts[0]
    else Join(parts[..|parts| - 1], sep) + [sep] + parts[|parts| - 1]
  }

  /** A string without the separator is a single piece. */
  lemma {:induction false} SplitWithoutSep(s: string, sep: char)
    requires sep !in s
    ensures Split(s, sep) == [s]
    decreases |s|
  {
    if s != [] {
      SplitWithoutSep(s[..|s| - 1], sep);
      assert s[..|s| - 1] + [s[|s| - 1]] == s;
    }
  }

  /** A string holding the separator splits into two or more pieces. */
  lemma {:induction false} SplitWithSep(s: string, sep: char)
    requires sep in s
    ensures |Split(s, sep)| >= 2
    decreases |s|
  {
    var n := |s|;
    if s[n - 1] != sep {
      var i :| 0 <= i < n && s[i] == sep;
      assert s[..n - 1][i] == sep;
      SplitWithSep(s[..n - 1], sep);
    }
  }

  /** Appending a separator and a separator-free piece appends that piece. */
  lemma {:induction false} SplitAppend(x: string, sep: char, y: string)
    requires sep !in y
    ensures Split(x + [sep] + y, sep) == Split(x, sep) + [y]
    decreases |y|
  {
    var s := x + [sep] + y;
    if y == [] {
      assert s[..|s| - 1] == x;
    } else {
      var y' := y[..|y| - 1];
      var c := y[|y| - 1];
      assert s[..|s| - 1] == x + [sep] + y' && s[|s| - 1] == c;
      assert c != sep && y' + [c] == y;
      calc {
        Split(s, sep);
        Push(Split(x + [sep] + y', sep), c, sep);
        { SplitAppend(x, sep, y'); }
        Push(Split(x, sep) + [y'], c, sep);
        { PushAfter(Split(x, sep), [y'], c, sep); }
        Split(x, sep) + [y];
      }
    }
  }

  /** Splitting a concatenation around a separator concatenates the splits. */
  lemma {:induction false} SplitConcat(x: string, sep: char, y: string)
    ensures Split(x + [sep] + y, sep) == Split(x, sep) + Split(y, sep)
    decreases |y|
  {
    if y == [] {
      SplitAppend(x, sep, y);
    } else {
      var y' := y[..|y| - 1];
      var c := y[|y| - 1];
      var s := x + [sep] + y;
      assert s[..|s| - 1] == x + [sep] + y' && s[|s| - 1] == c;
      calc {
        Split(s, sep);
        Push(Split(x + [sep] + y', sep), c, sep);
        { SplitConcat(x, sep, y'); }
        Push(Split(x, sep) + Split(y', sep), c, sep);
        { PushAfter(Split(x, sep), Split(y', sep), c, sep); }
        Split(x, sep) + Push(Split(y', sep), c, sep);
      }
    }
  }

  lemma PushAfter(xs: seq<string>, ys: seq<string>, c: char, sep: char)
    requires |ys| >= 1
    ensures Push(xs + ys, c, sep) == xs + Push(ys, c, sep)
  {
    var init := xs + ys;
    if c != sep {
      assert init[..|init| - 1] == xs + ys[..|ys| - 1];
    }
  }

  /** No piece of a split contains the separator. */
  lemma {:induction false} SplitPiecesAreClean(s: string, sep: char)
    ensures forall p :: p in Split(s, sep) ==> sep !in p
    decreases |s|
  {
    if s != [] {
      SplitPiecesAreClean(s[..|s| - 1], sep);
    }
  }

  /** Reading one more character appends it to the joined text. */
  lemma JoinPush(pieces: seq<string>, c: char, sep: char)
    requires |pieces| >= 1
    ensures Join(Push(pieces, c, sep), sep) == Join(pieces, sep) + [c]
  {
    var k := |pieces|;
    var r := Push(pieces, c, sep);
    if c == sep {
      assert r[..k] == pieces && r[k] == "";
      assert Join(r, sep) == Join(pieces, sep) + [sep] + "";
    } else if k == 1 {
      assert r == [pieces[0] + [c]];
    } else {
      var front := Join(pieces[..k - 1], sep);
      var last := pieces[k - 1];
      assert r[..k - 1] == pieces[..k - 1] && r[k - 1] == last + [c];
      assert Join(r, sep) == front + [sep] + (last + [c]);
      assert Join(pieces, sep) == front + [sep] + last;
    }
  }

  /** One more character keeps the round trip. */
  lemma JoinSplitSnoc(front: string, c: char, sep: char)
    requires Join(Split(front, sep), sep) == front
    ensures Join(Split(front + [c], sep), sep) == front + [c]
  {
    var s := front + [c];
    assert s[..|s| - 1] == front && s[|s| - 1] == c;
    assert Split(s, sep) == Push(Split(front, sep), c, sep);
    JoinPush(Split(front, sep), c, sep);
  }

  /** Round trip: joining the pieces gives back the string. */
  lemma {:induction false} JoinSplit(s: string, sep: char)
    ensures Join(Split(s, sep), sep) == s
    decreases |s|
  {
    if s != [] {
      JoinSplit(s[..|s| - 1], sep);
      JoinSplitSnoc(s[..|s| - 1], s[|s| - 1], sep);
      FrontAndLast(s);
    }
  }

  /** Round trip: splitting a join of separator-free pieces gives the pieces. */
  lemma {:induction false} SplitJoin(parts: seq<string>, sep: char)
    requires |parts| >= 1
    requires forall p :: p in parts ==> sep !in p
    ensures Split(Join(parts, sep), sep) == parts
    decreases |parts|
  {
    if |parts| == 1 {
      SplitWithoutSep(parts[0], sep);
    } else {
      var init := parts[..|parts| - 1];
      var last := parts[|parts| - 1];
      assert forall p :: p in init ==> p in parts;
      assert last in parts;
      SplitJoin(init, sep);
      assert Join(parts, sep) == Join(init, sep) + [sep] + last;
      SplitAppend(Join(init, sep), sep, last);
      FrontAndLast(parts);
    }
  }

  // ---------------------------------------------------------------------
  // ltrim, trailing characters
  // ---------------------------------------------------------------------

  /** PHP's `ltrim($s, $c)` for one character: drops every leading `c`. */
  function LTrim(s: string, c: char): (r: string)
    ensures |r| <= |s| && s[|s| - |r|..] == r
    ensures r == [] || r[0] != c
    ensures forall i :: 0 <= i < |s| - |r| ==> s[i] == c
    decreases |s|
  {
    if s != [] && s[0] == c then LTrim(s[1..], c) else s
  }

  /** `ltrim` leaves a string that does not start with `c` as it is. */
  lemma LTrimStops(s: string, c: char)
    requires s == [] || s[0] != c
    ensures LTrim(s, c) == s
  {
  }

  /** One `c` put in front of a string `ltrim` leaves alone is trimmed away again. */
  lemma LTrimOne(s: string, c: char)
    requires s == [] || s[0] != c
    ensures LTrim([c] + s, c) == s
  {
    assert ([c] + s)[1..] == s;
    LTrimStops(s, c);
  }

  // ---------------------------------------------------------------------
  // Decimal formatting
  // ---------------------------------------------------------------------

  function DigitChar(d: nat): char
    requires d < 10
  {
    ('0' as int + d) as char
  }

  predicate IsDigit(c: char) {
    '0' as int <= c as int <= '9' as int
  }

  /** `(string) $n` / `n.toString()` for a non-negative integer. */
  function NatToString(n: nat): (r: string)
    ensures |r| >= 1
    ensures forall i :: 0 <= i < |r| ==> IsDigit(r[i])
    decreases n
  {
    if n < 10 then [DigitChar(n)] else NatToString(n / 10) + [DigitChar(n % 10)]
  }

  /** `(string) $i` / `i.toString()` for any integer. */
  function IntToString(i: int): string {
    if i < 0 then "-" + NatToString(-i) else NatToString(i)
  }

  /** The number a string of decimal digits denotes. */
  function DigitsValue(s: string): nat
    requires forall i :: 0 <= i < |s| ==> IsDigit(s[i])
    decreases |s|
  {
    if s == [] then 0
    else
      var c := s[|s| - 1];
      assert IsDigit(c);
      DigitsValue(s[..|s| - 1]) * 10 + (c as int - '0' as int)
  }

  /** Round trip: the decimal text of `n` denotes `n`. */
  lemma {:induction false} NatToStringValue(n: nat)
    ensures DigitsValue(NatToString(n)) == n
    decreases n
  {
    if n >= 10 {
      NatToStringValue(n / 10);
      var r := NatToString(n);
      assert r[..|r| - 1] == NatToString(n / 10);
    }
  }

  // ---------------------------------------------------------------------
  // ASCII case mapping (PHP `strtolower`/`ucfirst`, JS `toLowerCase`)
  // ---------------------------------------------------------------------

  function LowerChar(c: char): char {
    if 'A' <= c <= 'Z' then (c as int + 32) as char else c
  }

  function UpperChar(c: char): char {
    if 'a' <= c <= 'z' then (c as int - 32) as char else c
  }

  function ToLower(s: string): (r: string)
    ensures |r| == |s|
  {
    seq(|s|, i requires 0 <= i < |s| => LowerChar(s[i]))
  }

  /** Lower-casing is idempotent and leaves no upper-case ASCII letter. */
  lemma ToLowerIdempotent(s: string)
    ensures ToLower(ToLower(s)) == ToLower(s)
    ensures forall i :: 0 <= i < |s| ==> !('A' <= ToLower(s)[i] <= 'Z')
  {
  }

  /**
   * JavaScript's `s.length`: the number of UTF-16 code units, so a
   * character outside the Basic Multilingual Plane counts twice.
   */
  function Utf16Length(s: string): (n: nat)
    ensures |s| <= n <= 2 * |s|
    ensures (forall i :: 0 <= i < |s| ==> s[i] as int < 0x1_0000) ==> n == |s|
  {
    if s == [] then 0
    else (if s[0] as int < 0x1_0000 then 1 else 2) + Utf16Length(s[1..])
  }

  /** A single emoji is two code units long. */
  lemma Utf16LengthOfEmoji()
    ensures Utf16Length("\U{1F600}") == 2
    ensures |"\U{1F600}"| == 1
  {
    assert "\U{1F600}"[1..] == [];
  }

  /** PHP's `ucfirst`: the first character upper-cased, the rest unchanged. */
  function UcFirst(s: string): (r: string)
    ensures |r| == |s|
    ensures |s| > 0 ==> r[0] == UpperChar(s[0]) && r[1..] == s[1..]
  {
    if s == [] then [] else [UpperChar(s[0])] + s[1..]
  }

  /** JavaScript's `values.join(sep)`. */
  function JoinWith(values: seq<string>, sep: string): string
    decreases |values|
  {
    if values == [] then ""
    else if |values| == 1 then values[0]
    else values[0] + sep + JoinWith(values[1..], sep)
  }

  // ---------------------------------------------------------------------
  // Ordering
  // ---------------------------------------------------------------------

  /** Character-wise lexicographic order on strings. */
  predicate StrLe(a: string, b: string)
    decreases |a|
  {
    if a == [] then true
    else if b == [] then false
    else if a[0] != b[0] then a[0] < b[0]
    else StrLe(a[1..], b[1..])
  }

  lemma {:induction false} StrLeTotal(a: string, b: string)
    ensures StrLe(a, b) || StrLe(b, a)
    decreases |a|
  {
    if a != [] && b != [] && a[0] == b[0] {
      StrLeTotal(a[1..], b[1..]);
    }
  }

  lemma {:induction false} StrLeTransitive(a: string, b: string, c: string)
    requires StrLe(a, b) && StrLe(b, c)
    ensures StrLe(a, c)
    decreases |a|
  {
    if a != [] && b != [] && c != [] && a[0] == b[0] && b[0] == c[0] {
      StrLeTransitive(a[1..], b[1..], c[1..]);
    }
  }

  /** A string contains whatever is written in the middle of it. */
  lemma {:induction false} ContainsMiddle(a: string, x: string, b: string)
    ensures Contains(a + x + b, x)
    decreases |a|
  {
    if a == [] {
      assert (a + x + b)[..|x|] == x;
    } else {
      ContainsMiddle(a[1..], x, b);
      assert (a + x + b)[1..] == a[1..] + x + b;
    }
  }

  /** The decimal text of an integer starts with a minus sign exactly when it is negative. */
  lemma IntToStringSign(i: int)
    ensures |IntToString(i)| >= 1
    ensures IntToString(i)[0] == '-' <==> i < 0
  {
    if i >= 0 {
      assert IsDigit(NatToString(i)[0]);
    }
  }

  lemma NatToStringInjective(a: nat, b: nat)
    requires NatToString(a) == NatToString(b)
    ensures a == b
  {
    NatToStringValue(a);
    NatToStringValue(b);
  }

  /** Different integers have different decimal texts. */
  lemma IntToStringInjective(a: int, b: int)
    requires IntToString(a) == IntToString(b)
    ensures a == b
  {
    IntToStringSign(a);
    IntToStringSign(b);
    if a < 0 {
      var s := IntToString(a);
      assert s == "-" + NatToString(-a);
      assert s[1..] == NatToString(-a);
      assert s[1..] == NatToString(-b);
      NatToStringInjective(-a, -b);
    } else {
      NatToStringInjective(a, b);
    }
  }
}
