/** The JavaScript string and number builtins that both engines of the P300 module rely on.
    A JavaScript string is modelled as a `seq<char>`; `undefined`/`null`/NaN are made
    explicit with `Option`. Each function names the builtin it stands for. */
module JsString {

  datatype Option<T> = None | Some(value: T)

  /** ECMAScript LineTerminator: the characters `.` in a regular expression does not match. */
  predicate IsLineTerminator(c: char) {
    c == '\n' || c == '\r' || c == '\U{2028}' || c == '\U{2029}'
  }

  /** ECMAScript WhiteSpace or LineTerminator: what `trim`, `parseInt` and `\s` skip. */
  predicate IsSpace(c: char) {
    || c == '\t' || c == '\U{B}' || c == '\U{C}' || c == ' ' || c == '\U{A0}'
    || c == '\U{1680}' || ('\U{2000}' <= c <= '\U{200A}') || c == '\U{202F}'
    || c == '\U{205F}' || c == '\U{3000}' || c == '\U{FEFF}'
    || IsLineTerminator(c)
  }

  predicate IsDigit(c: char) { '0' <= c <= '9' }

  predicate IsHexDigit(c: char) { IsDigit(c) || 'a' <= c <= 'f' || 'A' <= c <= 'F' }

  predicate AllDigits(s: string) { forall k :: 0 <= k < |s| ==> IsDigit(s[k]) }

  predicate HasPrefix(s: string, p: string) { |p| <= |s| && s[..|p|] == p }

  /** `s.indexOf(c)`: the first position of `c`, or -1. */
  function IndexOf(s: string, c: char): (i: int)
    ensures -1 <= i < |s|
    ensures i == -1 <==> c !in s
    ensures 0 <= i ==> s[i] == c && c !in s[..i]
  {
    if s == [] then -1
    else if s[0] == c then 0
    else
      var j := IndexOf(s[1..], c);
      assert s == [s[0]] + s[1..];
      if j == -1 then -1
      else
        assert s[..j + 1] == [s[0]] + s[1..][..j];
        j + 1
  }

  /** Concatenation of any sequences regroups freely. */
  lemma AppendAssoc<T>(a: seq<T>, b: seq<T>, c: seq<T>)
    ensures a + b + c == a + (b + c)
  {
  }

  lemma ConsTwo<T>(a: T, b: T, x: seq<T>)
    ensures [a] + ([b] + x) == [a, b] + x
  {
  }

  lemma ConsThree<T>(a: T, b: T, c: T, x: seq<T>)
    ensures [a] + ([b] + ([c] + x)) == [a, b, c] + x
  {
  }

  lemma Assoc(a: string, b: string, c: string)
    ensures a + b + c == a + (b + c)
  {
  }

  /** The first `c` of `g + h` is the one `h` starts with when `g` holds none. */
  lemma {:induction false} IndexOfAfter(g: string, c: char, h: string)
    requires c !in g && h != [] && h[0] == c
    ensures IndexOf(g + h, c) == |g|
  {
    if g != [] {
      assert (g + h)[1..] == g[1..] + h;
      IndexOfAfter(g[1..], c, h);
    }
  }

  /** `s.indexOf(c, from)` for a non-negative start position. */
  function IndexOfFrom(s: string, c: char, from: nat): (i: int)
    ensures i == -1 || from <= i < |s|
  {
    if from >= |s| then -1
    else
      var j := IndexOf(s[from..], c);
      if j == -1 then -1 else from + j
  }

  function Clamp(x: int, hi: nat): (r: nat)
    ensures r <= hi
  {
    if x < 0 then 0 else if x > hi then hi else x
  }

  /** `s.substring(start, end)`: both bounds clamped to [0, |s|] and swapped when out of order. */
  function Substring(s: string, start: int, end: int): string {
    var a := Clamp(start, |s|);
    var b := Clamp(end, |s|);
    if a <= b then s[a..b] else s[b..a]
  }

  /** `s.substr(start, length)`, for the non-negative arguments both engines pass. */
  function Substr(s: string, start: nat, length: nat): string {
    var a := if start <= |s| then start else |s|;
    var b := if a + length <= |s| then a + length else |s|;
    s[a..b]
  }

  /** Number of occurrences of `c` in `s`. */
  function Count(s: string, c: char): nat {
    if s == [] then 0 else (if s[0] == c then 1 else 0) + Count(s[1..], c)
  }

  lemma {:induction false} CountAppend(a: string, b: string, c: char)
    ensures Count(a + b, c) == Count(a, c) + Count(b, c)
  {
    if a != [] {
      assert a + b != [] && (a + b)[0] == a[0];
      assert (a + b)[1..] == a[1..] + b;
      assert Count(a + b, c) == (if a[0] == c then 1 else 0) + Count(a[1..] + b, c);
      CountAppend(a[1..], b, c);
    } else {
      assert a + b == b;
    }
  }

  lemma {:induction false} CountAbsent(s: string, c: char)
    ensures Count(s, c) == 0 <==> c !in s
  {
    if s != [] {
      assert s == [s[0]] + s[1..];
      CountAbsent(s[1..], c);
    }
  }

  /** `s.trimStart()`. */
  function TrimStart(s: string): (r: string)
    ensures |r| <= |s|
    ensures r == [] || !IsSpace(r[0])
    ensures forall k :: 0 <= k < |s| - |r| ==> IsSpace(s[k])
  {
    if s != [] && IsSpace(s[0]) then TrimStart(s[1..]) else s
  }

  /** `s.trimEnd()`. */
  function TrimEnd(s: string): (r: string)
    ensures |r| <= |s|
    ensures r == [] || !IsSpace(r[|r| - 1])
    ensures forall k :: |r| <= k < |s| ==> IsSpace(s[k])
  {
    if s != [] && IsSpace(s[|s| - 1]) then TrimEnd(s[..|s| - 1]) else s
  }

  /** What `trimStart` leaves is a suffix of its input. */
  lemma {:induction false} TrimStartSuffix(s: string)
    ensures TrimStart(s) == s[|s| - |TrimStart(s)|..]
  {
    if s != [] && IsSpace(s[0]) {
      TrimStartSuffix(s[1..]);
    }
  }

  /** What `trimEnd` leaves is a prefix of its input. */
  lemma {:induction false} TrimEndPrefix(s: string)
    ensures TrimEnd(s) == s[..|TrimEnd(s)|]
  {
    if s != [] && IsSpace(s[|s| - 1]) {
      TrimEndPrefix(s[..|s| - 1]);
    }
  }

  /** `s.trim()`. */
  function Trim(s: string): string {
    TrimEnd(TrimStart(s))
  }

  /** A string whose first and last characters are not white space is its own trim. */
  lemma TrimUnchanged(s: string)
    requires s == [] || (!IsSpace(s[0]) && !IsSpace(s[|s| - 1]))
    ensures Trim(s) == s
  {
  }

  /** A space in front of an already trimmed string is all `trim` removes. */
  lemma TrimAfterSpace(s: string)
    requires s != [] && !IsSpace(s[0]) && !IsSpace(s[|s| - 1])
    ensures Trim(" " + s) == s
  {
    assert (" " + s)[1..] == s;
    assert TrimStart(" " + s) == TrimStart(s);
    TrimUnchanged(s);
  }

  /** Trailing white space is exactly what `trimEnd` removes. */
  lemma {:induction false} TrimEndPadding(v: string, pad: string)
    requires v == [] || !IsSpace(v[|v| - 1])
    requires forall k :: 0 <= k < |pad| ==> IsSpace(pad[k])
    ensures TrimEnd(v + pad) == v
  {
    if pad != [] {
      var p := pad[..|pad| - 1];
      assert (v + pad)[..|v + pad| - 1] == v + p;
      TrimEndPadding(v, p);
    } else {
      assert v + pad == v;
    }
  }

  /** `parts.join(sep)`. */
  function Join(parts: seq<string>, sep: char): string {
    if parts == [] then "" else if |parts| == 1 then parts[0] else parts[0] + [sep] + Join(parts[1..], sep)
  }

  /** `s.split(sep)` for a one-character separator: the pieces between separators. */
  function Split(s: string, sep: char): seq<string>
    decreases |s|
  {
    var i := IndexOf(s, sep);
    if i == -1 then [s] else [s[..i]] + Split(s[i + 1..], sep)
  }

  /** `split` cuts at every separator and nowhere else: one piece more than there are
      separators, none holding one, and joining them back with the separator gives `s`. */
  lemma {:induction false} SplitPartition(s: string, sep: char)
    ensures |Split(s, sep)| == Count(s, sep) + 1
    ensures forall k :: 0 <= k < |Split(s, sep)| ==> sep !in Split(s, sep)[k]
    ensures Join(Split(s, sep), sep) == s
    decreases |s|
  {
    var i := IndexOf(s, sep);
    if i == -1 {
      CountAbsent(s, sep);
    } else {
      var rest := Split(s[i + 1..], sep);
      SplitPartition(s[i + 1..], sep);
      SplitStep(s, sep, i, rest);
    }
  }

  /** One cut of `split`: the text before the first separator, then the pieces after it. */
  lemma SplitStep(s: string, sep: char, i: nat, rest: seq<string>)
    requires i < |s| && s[i] == sep && sep !in s[..i]
    requires |rest| == Count(s[i + 1..], sep) + 1
    requires forall k :: 0 <= k < |rest| ==> sep !in rest[k]
    requires Join(rest, sep) == s[i + 1..]
    ensures |[s[..i]] + rest| == Count(s, sep) + 1
    ensures forall k :: 0 <= k < |[s[..i]] + rest| ==> sep !in ([s[..i]] + rest)[k]
    ensures Join([s[..i]] + rest, sep) == s
  {
    var a, b := s[..i], s[i + 1..];
    assert s == a + ([sep] + b);
    CountAbsent(a, sep);
    CountAppend(a, [sep] + b, sep);
    CountAppend([sep], b, sep);
    assert Count([sep], sep) == 1;
    var parts := [a] + rest;
    assert parts[1..] == rest;
  }

  /** Splitting at a first separator gives the text before it, then the split of the text after it. */
  lemma SplitAtFirst(a: string, sep: char, b: string)
    requires sep !in a
    ensures Split(a + [sep] + b, sep) == [a] + Split(b, sep)
  {
    var s := a + [sep] + b;
    assert s[|a|] == sep && s[..|a|] == a && s[|a| + 1..] == b;
    assert IndexOf(s, sep) == |a|;
  }

  /** A string without the separator splits into itself alone. */
  lemma SplitNoSeparator(a: string, sep: char)
    requires sep !in a
    ensures Split(a, sep) == [a]
  {
  }

  /** `p` occurs in `s` at position `k`. */
  predicate OccursAt(s: string, p: string, k: int) {
    0 <= k && k + |p| <= |s| && s[k..k + |p|] == p
  }

  /** `s.indexOf(p, from)` for a string `p`: its first occurrence at or after `from`, or -1. */
  function IndexOfText(s: string, p: string, from: nat): (i: int)
    ensures i == -1 || (from <= i && OccursAt(s, p, i))
    ensures i == -1 ==> forall k :: from <= k <= |s| - |p| ==> !OccursAt(s, p, k)
    ensures 0 <= i ==> forall k :: from <= k < i ==> !OccursAt(s, p, k)
    decreases |s| - from
  {
    if from + |p| > |s| then -1
    else if s[from..from + |p|] == p then from
    else IndexOfText(s, p, from + 1)
  }

  /** `s.replace(p, '')` with a string pattern: only the first occurrence is removed. */
  function RemoveFirst(s: string, p: string): string {
    var i := IndexOfText(s, p, 0);
    if i == -1 then s else s[..i] + s[i + |p|..]
  }

  /** The longest prefix of `s` made of decimal digits. */
  function DigitPrefix(s: string): (d: string)
    ensures |d| <= |s| && d == s[..|d|] && AllDigits(d)
    ensures |d| < |s| ==> !IsDigit(s[|d|])
  {
    if s != [] && IsDigit(s[0]) then [s[0]] + DigitPrefix(s[1..]) else ""
  }

  /** The longest prefix of `s` made of hexadecimal digits. */
  function HexPrefix(s: string): (d: string)
    ensures |d| <= |s| && d == s[..|d|]
    ensures forall k :: 0 <= k < |d| ==> IsHexDigit(d[k])
  {
    if s != [] && IsHexDigit(s[0]) then [s[0]] + HexPrefix(s[1..]) else ""
  }

  /** The digit prefix of a string is determined by its digits and the first non-digit after them. */
  lemma DigitPrefixOf(d: string, rest: string)
    requires AllDigits(d)
    requires rest == [] || !IsDigit(rest[0])
    ensures DigitPrefix(d + rest) == d
  {
    assert (d + rest)[..|d|] == d;
  }

  function DigitValue(c: char): nat { if IsDigit(c) then (c as int) - ('0' as int) else 0 }

  function HexDigitValue(c: char): nat {
    if IsDigit(c) then (c as int) - ('0' as int)
    else if 'a' <= c <= 'f' then (c as int) - ('a' as int) + 10
    else if 'A' <= c <= 'F' then (c as int) - ('A' as int) + 10
    else 0
  }

  /** The value of a string of decimal digits, most significant first. */
  function DecimalValue(d: string): nat {
    if d == [] then 0 else 10 * DecimalValue(d[..|d| - 1]) + DigitValue(d[|d| - 1])
  }

  function HexValue(d: string): nat {
    if d == [] then 0 else 16 * HexValue(d[..|d| - 1]) + HexDigitValue(d[|d| - 1])
  }

  /** What `parseInt` parses after skipping leading white space and one sign. */
  function Unsigned(s: string): string {
    var t := TrimStart(s);
    if t != [] && (t[0] == '-' || t[0] == '+') then t[1..] else t
  }

  predicate HexMarked(u: string) { |u| >= 2 && u[0] == '0' && (u[1] == 'x' || u[1] == 'X') }

  /** `parseInt(s)` with no radix: leading white space skipped, one optional sign, a `0x`/`0X`
      prefix selecting base 16, then the longest run of digits; `None` stands for NaN.
      Results are exact integers (the double rounding of very long digit runs and the
      sign of -0 are not modelled). */
  function ParseInt(s: string): (r: Option<int>)
    ensures r.Some? <==> var u := Unsigned(s);
      if HexMarked(u) then |u| > 2 && IsHexDigit(u[2]) else u != [] && IsDigit(u[0])
  {
    var t := TrimStart(s);
    var negative := t != [] && t[0] == '-';
    var u := Unsigned(s);
    if HexMarked(u) then
      var d := HexPrefix(u[2..]);
      var v: int := HexValue(d);
      if d == "" then None else Some(if negative then -v else v)
    else
      var d := DigitPrefix(u);
      var v: int := DecimalValue(d);
      if d == "" then None else Some(if negative then -v else v)
  }

  /** A string starting with a digit has no leading white space to skip. */
  lemma NoLeadingSpace(s: string)
    requires s != [] && IsDigit(s[0])
    ensures TrimStart(s) == s
  {
    assert !IsSpace(s[0]);
  }

  /** A run of decimal digits ended by a non-digit (and not read as a `0x` prefix) parses to its value. */
  lemma ParseIntDigits(d: string, rest: string)
    requires d != [] && AllDigits(d)
    requires rest == [] || !IsDigit(rest[0])
    requires !HexMarked(d + rest)
    ensures ParseInt(d + rest) == Some(DecimalValue(d))
  {
    assert (d + rest)[0] == d[0];
    DigitPrefixOf(d, rest);
    ParseIntUnsigned(d + rest, d);
  }

  /** `parseInt` of a string that starts with its digits. */
  lemma ParseIntUnsigned(s: string, d: string)
    requires s != [] && IsDigit(s[0]) && !HexMarked(s) && DigitPrefix(s) == d && d != []
    ensures ParseInt(s) == Some(DecimalValue(d))
  {
    NoLeadingSpace(s);
  }

  /** A string starting with a character that is neither white space, a sign nor a digit is NaN. */
  lemma ParseIntNaN(s: string)
    requires s != [] && !IsSpace(s[0]) && !IsDigit(s[0]) && s[0] != '-' && s[0] != '+'
    ensures ParseInt(s) == None
  {
    assert TrimStart(s) == s;
  }

  function DigitChar(n: nat): char
    requires n < 10
  {
    (('0' as int) + n) as char
  }

  /** `String(n)` for a non-negative integer: its decimal digits, most significant first. */
  function NatToString(n: nat): string
    decreases n
  {
    if n < 10 then [DigitChar(n)] else NatToString(n / 10) + [DigitChar(n % 10)]
  }

  /** `String(n)` is a non-empty run of digits with value `n`, and has no leading zero. */
  lemma {:induction false} NatToStringDigits(n: nat)
    ensures var s := NatToString(n);
      && s != [] && AllDigits(s) && DecimalValue(s) == n && (s[0] == '0' ==> n == 0)
    decreases n
  {
    if n >= 10 {
      var p := NatToString(n / 10);
      var s := p + [DigitChar(n % 10)];
      NatToStringDigits(n / 10);
      assert s[..|s| - 1] == p;
    }
  }

  /** Different numbers print differently. */
  lemma NatToStringInjective(m: nat, n: nat)
    requires NatToString(m) == NatToString(n)
    ensures m == n
  {
    NatToStringDigits(m);
    NatToStringDigits(n);
  }

  /** `parseInt(String(n)) === n`: printing and parsing a non-negative integer round-trip. */
  lemma ParseIntNatToString(n: nat)
    ensures ParseInt(NatToString(n)) == Some(n)
  {
    var s := NatToString(n);
    NatToStringDigits(n);
    assert s + "" == s;
    ParseIntDigits(s, "");
  }

  /** The string a JavaScript number turns into when concatenated to a string; None is NaN. */
  function NumberToString(r: Option<int>): string {
    match r
    case None => "NaN"
    case Some(n) => if n >= 0 then NatToString(n) else "-" + NatToString(-n)
  }
}
