/** Models of the Ruby core-library operations that the matchers are built from.
    Strings are sequences of characters; every index and length is non-negative. */
module RubyCore {

  /** A Ruby value that may be `nil`. */
  datatype Option<+T> = None | Some(value: T)

  function Min(a: int, b: int): int { if a < b then a else b }

  // ---------------------------------------------------------------------------
  // String#rstrip

  /** The characters `String#rstrip` removes: NUL, horizontal tab, line feed,
      vertical tab, form feed, carriage return and space. */
  predicate IsSpace(c: char) {
    c == '\0' || c == '\t' || c == '\n' || c == '\U{000B}' || c == '\U{000C}' || c == '\r' || c == ' '
  }

  predicate AllSpace(s: string) {
    forall i :: 0 <= i < |s| ==> IsSpace(s[i])
  }

  /** The length of `s[..n]` once its trailing whitespace is dropped. */
  function KeptLength(s: string, n: nat): (k: nat)
    requires n <= |s|
    ensures k <= n
  {
    if n == 0 || !IsSpace(s[n - 1]) then n else KeptLength(s, n - 1)
  }

  /** `String#rstrip`: the string without its trailing whitespace. */
  function RStrip(s: string): string
  {
    s[..KeptLength(s, |s|)]
  }

  lemma {:induction false} KeptLengthSpec(s: string, n: nat)
    requires n <= |s|
    ensures KeptLength(s, n) == 0 || !IsSpace(s[KeptLength(s, n) - 1])
    ensures forall i :: KeptLength(s, n) <= i < n ==> IsSpace(s[i])
  {
    if n > 0 && IsSpace(s[n - 1]) {
      KeptLengthSpec(s, n - 1);
    }
  }

  /** What `rstrip` keeps is a prefix of the string that is empty or ends in a
      non-whitespace character, and what it drops is all whitespace. */
  lemma RStripSpec(s: string)
    ensures RStrip(s) <= s
    ensures RStrip(s) == [] || !IsSpace(RStrip(s)[|RStrip(s)| - 1])
    ensures AllSpace(s[|RStrip(s)|..])
  {
    KeptLengthSpec(s, |s|);
  }

  /** Stripping is determined by the split into a kept part and a blank tail:
      a string that does not end in whitespace, followed by any whitespace,
      strips back to exactly that string. */
  lemma {:induction false} RStripOfPadded(t: string, w: string)
    requires t == [] || !IsSpace(t[|t| - 1])
    requires AllSpace(w)
    ensures RStrip(t + w) == t
  {
    var s := t + w;
    forall i | |t| <= i < |s| ensures IsSpace(s[i]) {
      assert s[i] == w[i - |t|];
    }
    KeptLengthOverBlank(s, |t|, |s|);
    assert s[..|t|] == t;
  }

  /** Scanning back from `n` over whitespace stops at `t`, the first position
      after the last non-whitespace character. */
  lemma {:induction false} KeptLengthOverBlank(s: string, t: nat, n: nat)
    requires t <= n <= |s|
    requires t == 0 || !IsSpace(s[t - 1])
    requires forall i :: t <= i < n ==> IsSpace(s[i])
    ensures KeptLength(s, n) == t
    decreases n
  {
    if n > t {
      KeptLengthOverBlank(s, t, n - 1);
    }
  }

  /** Scanning back over a stretch of whitespace ends where scanning back
      from its start ends. */
  lemma {:induction false} KeptLengthSkipsBlank(s: string, m: nat, n: nat)
    requires m <= n <= |s|
    requires forall i :: m <= i < n ==> IsSpace(s[i])
    ensures KeptLength(s, n) == KeptLength(s, m)
    decreases n
  {
    if n > m {
      KeptLengthSkipsBlank(s, m, n - 1);
    }
  }

  /** The scan back from `n` reads only the first `n` characters. */
  lemma {:induction false} KeptLengthOfPrefix(s: string, t: string, n: nat)
    requires n <= |s| && n <= |t| && s[..n] == t[..n]
    ensures KeptLength(s, n) == KeptLength(t, n)
    decreases n
  {
    if n > 0 {
      assert s[n - 1] == s[..n][n - 1] == t[..n][n - 1] == t[n - 1];
      assert s[..n - 1] == s[..n][..n - 1];
      assert t[..n - 1] == t[..n][..n - 1];
      KeptLengthOfPrefix(s, t, n - 1);
    }
  }

  /** Whitespace appended to a string is stripped off again with the
      string's own trailing whitespace. */
  lemma RStripAppendBlank(t: string, w: string)
    requires AllSpace(w)
    ensures RStrip(t + w) == RStrip(t)
  {
    var s := t + w;
    forall i | |t| <= i < |s| ensures IsSpace(s[i]) {
      assert s[i] == w[i - |t|];
    }
    KeptLengthSkipsBlank(s, |t|, |s|);
    assert s[..|t|] == t[..|t|];
    KeptLengthOfPrefix(s, t, |t|);
    assert s[..KeptLength(t, |t|)] == t[..KeptLength(t, |t|)];
  }

  /** Trimming twice is trimming once. */
  lemma RStripIdempotent(s: string)
    ensures RStrip(RStrip(s)) == RStrip(s)
  {
    RStripSpec(s);
    RStripOfPadded(RStrip(s), []);
    assert RStrip(s) + [] == RStrip(s);
  }

  /** A string made only of whitespace strips to the empty string. */
  lemma RStripAllSpace(s: string)
    requires AllSpace(s)
    ensures RStrip(s) == ""
  {
    RStripSpec(s);
  }

  // ---------------------------------------------------------------------------
  // String#split("\n") and Array#join("\n")

  /** The fields of `s` between line feeds, trailing empty fields included. */
  function Fields(s: string): (r: seq<string>)
    ensures |r| >= 1
    decreases |s|
  {
    if |s| == 0 then [""]
    else
      var rest := Fields(s[1..]);
      if s[0] == '\n' then [""] + rest
      else [[s[0]] + rest[0]] + rest[1..]
  }

  /** No field holds a line feed, and every character of a field comes from `s`. */
  lemma {:induction false} FieldsSpec(s: string)
    ensures forall k :: 0 <= k < |Fields(s)| ==> '\n' !in Fields(s)[k]
    ensures forall k, c {:trigger c in Fields(s)[k]} :: 0 <= k < |Fields(s)| && c in Fields(s)[k] ==> c in s
    decreases |s|
  {
    if |s| > 0 {
      FieldsSpec(s[1..]);
    }
  }

  /** `Array#join("\n")`. */
  function JoinLines(lines: seq<string>): string
  {
    if |lines| == 0 then ""
    else if |lines| == 1 then lines[0]
    else lines[0] + "\n" + JoinLines(lines[1..])
  }

  lemma JoinLinesPrepend(c: char, head: string, tail: seq<string>)
    ensures JoinLines([[c] + head] + tail) == [c] + JoinLines([head] + tail)
  {
    var x, y := [[c] + head] + tail, [head] + tail;
    if |tail| == 0 {
      assert x == [[c] + head] && y == [head];
    } else {
      assert x[1..] == tail && y[1..] == tail;
      var j := JoinLines(tail);
      assert JoinLines(x) == ([c] + head) + "\n" + j;
      assert JoinLines(y) == head + "\n" + j;
    }
  }

  /** Splitting on line feeds loses nothing: joining the fields back gives the input. */
  lemma {:induction false} JoinFields(s: string)
    ensures JoinLines(Fields(s)) == s
    decreases |s|
  {
    if |s| > 0 {
      JoinFields(s[1..]);
      var rest := Fields(s[1..]);
      if s[0] == '\n' {
        assert ([""] + rest)[1..] == rest;
        assert s == "\n" + s[1..];
      } else {
        JoinLinesPrepend(s[0], rest[0], rest[1..]);
        assert [rest[0]] + rest[1..] == rest;
        assert s == [s[0]] + s[1..];
      }
    }
  }

  /** Two field lists run together: the last field of `x` and the first of `y`
      become one field. */
  function Splice(x: seq<string>, y: seq<string>): seq<string>
    requires |x| >= 1 && |y| >= 1
  {
    x[..|x| - 1] + [x[|x| - 1] + y[0]] + y[1..]
  }

  lemma SpliceAfterEmptyField(x: seq<string>, y: seq<string>)
    requires |x| >= 1 && |y| >= 1
    ensures Splice([""] + x, y) == [""] + Splice(x, y)
  {
    var x' := [""] + x;
    assert x'[..|x'| - 1] == [""] + x[..|x| - 1];
    assert x'[|x'| - 1] == x[|x| - 1];
  }

  lemma SpliceAfterChar(c: char, x: seq<string>, y: seq<string>)
    requires |x| >= 1 && |y| >= 1
    ensures Splice([[c] + x[0]] + x[1..], y) == [[c] + Splice(x, y)[0]] + Splice(x, y)[1..]
  {
    var x' := [[c] + x[0]] + x[1..];
    var r := Splice(x, y);
    if |x| == 1 {
      assert x' == [[c] + x[0]];
      assert x'[..0] == [] && x[..0] == [];
      assert r == [x[0] + y[0]] + y[1..];
      assert r[0] == x[0] + y[0] && r[1..] == y[1..];
      assert ([c] + x[0]) + y[0] == [c] + (x[0] + y[0]);
      assert Splice(x', y) == [([c] + x[0]) + y[0]] + y[1..];
    } else {
      assert x'[..|x'| - 1] == [[c] + x[0]] + x[1..|x| - 1];
      assert x'[|x'| - 1] == x[|x| - 1];
      assert r[0] == x[0];
      assert r[1..] == x[1..|x| - 1] + [x[|x| - 1] + y[0]] + y[1..];
    }
  }

  lemma SpliceEmpty(y: seq<string>)
    requires |y| >= 1
    ensures Splice([""], y) == y
  {
    assert [""][..0] == [];
    assert "" + y[0] == y[0];
    assert [y[0]] + y[1..] == y;
  }

  /** Splitting a concatenation: the last field of `a` and the first field of
      `b` join into one field, and the other fields are those of `a` and `b`. */
  lemma {:induction false} FieldsAppend(a: string, b: string)
    ensures Fields(a + b) == Splice(Fields(a), Fields(b))
    decreases |a|
  {
    if |a| == 0 {
      assert a + b == b;
      SpliceEmpty(Fields(b));
    } else {
      var a' := a[1..];
      assert (a + b)[1..] == a' + b;
      FieldsAppend(a', b);
      if a[0] == '\n' {
        SpliceAfterEmptyField(Fields(a'), Fields(b));
      } else {
        SpliceAfterChar(a[0], Fields(a'), Fields(b));
      }
    }
  }

  /** A text without line feeds is a single field. */
  lemma {:induction false} FieldsOfLine(s: string)
    requires '\n' !in s
    ensures Fields(s) == [s]
    decreases |s|
  {
    if |s| > 0 {
      FieldsOfLine(s[1..]);
      assert [s[0]] + s[1..] == s;
    }
  }

  /** A line feed separates the fields on its left from those on its right. */
  lemma FieldsAroundLineFeed(a: string, b: string)
    ensures Fields(a + "\n" + b) == Fields(a) + Fields(b)
  {
    assert a + "\n" + b == a + ("\n" + b);
    FieldsAppend(a, "\n" + b);
    assert ("\n" + b)[1..] == b;
    var fa := Fields(a);
    assert Fields("\n" + b) == [""] + Fields(b);
    assert fa[|fa| - 1] + "" == fa[|fa| - 1];
    assert fa[..|fa| - 1] + [fa[|fa| - 1]] == fa;
  }

  /** The sequence without its trailing empty strings. */
  function DropTrailingEmpty(fs: seq<string>): seq<string>
    decreases |fs|
  {
    if |fs| == 0 || fs[|fs| - 1] != "" then fs
    else DropTrailingEmpty(fs[..|fs| - 1])
  }

  /** Dropping trailing empty fields keeps a prefix that ends in a non-empty
      field, and what it drops is empty fields only. */
  lemma {:induction false} DropTrailingEmptySpec(fs: seq<string>)
    ensures DropTrailingEmpty(fs) <= fs
    ensures DropTrailingEmpty(fs) == [] || DropTrailingEmpty(fs)[|DropTrailingEmpty(fs)| - 1] != ""
    ensures forall i :: |DropTrailingEmpty(fs)| <= i < |fs| ==> fs[i] == ""
    decreases |fs|
  {
    if |fs| > 0 && fs[|fs| - 1] == "" {
      DropTrailingEmptySpec(fs[..|fs| - 1]);
    }
  }

  /** `String#split("\n")`: the fields between line feeds, with trailing empty
      fields dropped (so `""` and `"\n"` both split to no fields at all). */
  function SplitLines(s: string): seq<string>
  {
    DropTrailingEmpty(Fields(s))
  }

  /** `lines[i] || ''`: the line at `i`, or the empty string past the end. */
  function LineAt(lines: seq<string>, i: nat): string
  {
    if i < |lines| then lines[i] else ""
  }

  /** Dropping the trailing empty fields never changes what `lines[i] || ''`
      reads, at any index. */
  lemma SplitLinesLineAt(s: string, i: nat)
    ensures LineAt(SplitLines(s), i) == LineAt(Fields(s), i)
  {
    DropTrailingEmptySpec(Fields(s));
  }

  /** Every field of a text made only of whitespace is whitespace. */
  lemma BlankFields(s: string, k: nat)
    requires AllSpace(s) && k < |Fields(s)|
    ensures AllSpace(Fields(s)[k])
  {
    FieldsSpec(s);
    var f := Fields(s)[k];
    forall j | 0 <= j < |f| ensures IsSpace(f[j]) {
      assert f[j] in f;
    }
  }

  /** Every line of a text made only of whitespace strips to the empty string. */
  lemma BlankTextLines(s: string, i: nat)
    requires AllSpace(s)
    ensures RStrip(LineAt(SplitLines(s), i)) == ""
  {
    SplitLinesLineAt(s, i);
    if i < |Fields(s)| {
      BlankFields(s, i);
    }
    RStripAllSpace(LineAt(Fields(s), i));
  }

  /** Whitespace after a text, line feeds included, changes none of its
      right-trimmed lines: each line `i` of `s + w` strips to line `i` of `s`
      (the empty string past the end). */
  lemma TrailingBlankTextLines(s: string, w: string, i: nat)
    requires AllSpace(w)
    ensures RStrip(LineAt(SplitLines(s + w), i)) == RStrip(LineAt(SplitLines(s), i))
  {
    SplitLinesLineAt(s + w, i);
    SplitLinesLineAt(s, i);
    FieldsAppend(s, w);
    var fs, fw := Fields(s), Fields(w);
    var f := Fields(s + w);
    var n := |fs|;
    assert |f| == n + |fw| - 1;
    if i < n - 1 {
      assert f[i] == fs[i];
    } else if i == n - 1 {
      assert f[i] == fs[n - 1] + fw[0];
      BlankFields(w, 0);
      RStripAppendBlank(fs[n - 1], fw[0]);
    } else {
      RStripAllSpace("");
      if i < |f| {
        assert f[i] == fw[i - n + 1];
        BlankFields(w, i - n + 1);
        RStripAllSpace(f[i]);
      }
    }
  }

  // ---------------------------------------------------------------------------
  // Indexing and slicing

  /** `a[i]` on an Array or a String: nil past the end. */
  function At<T>(a: seq<T>, i: nat): Option<T>
  {
    if i < |a| then Some(a[i]) else None
  }

  /** `String#[i]`: the one-character string at `i`, or nil past the end. */
  function CharAt(s: string, i: nat): Option<string>
  {
    if i < |s| then Some([s[i]]) else None
  }

  /** `Array#slice(start, length)` and `String#[start, length]`: nil when `start`
      lies past the end, the empty sequence exactly at the end, and otherwise
      at most `length` elements, cut short at the end. */
  function Slice<T>(a: seq<T>, start: nat, length: nat): (r: Option<seq<T>>)
    ensures r.None? <==> start > |a|
    ensures r.Some? ==> |r.value| == Min(length, |a| - start)
    ensures r.Some? ==> forall k :: 0 <= k < |r.value| ==> r.value[k] == a[start + k]
  {
    if start > |a| then None else Some(a[start..Min(start + length, |a|)])
  }

  /** `Array#[first..last]` (an inclusive range): nil when `first` lies past
      the end, otherwise the elements whose index lies in `first..last`. */
  function Range<T>(a: seq<T>, first: nat, last: nat): (r: Option<seq<T>>)
    ensures r.None? <==> first > |a|
    ensures r.Some? ==> |r.value| == if last < first then 0 else Min(last + 1, |a|) - first
    ensures r.Some? ==> forall k :: 0 <= k < |r.value| ==> first + k <= last && r.value[k] == a[first + k]
  {
    if first > |a| then None
    else if last < first then Some([])
    else Some(a[first..Min(last + 1, |a|)])
  }

  // ---------------------------------------------------------------------------
  // include?, start_with?, end_with?

  /** `String#start_with?`. */
  predicate StartsWith(s: string, prefix: string) { prefix <= s }

  /** `String#end_with?`. */
  predicate EndsWith(s: string, suffix: string) {
    |suffix| <= |s| && s[|s| - |suffix|..] == suffix
  }

  /** `String#include?`: `sub` occurs somewhere in `s`. */
  predicate Includes(s: string, sub: string) {
    exists k :: 0 <= k <= |s| - |sub| && sub <= s[k..]
  }

  /** The empty string is found in, starts and ends every string. */
  lemma EmptyIsEverywhere(s: string)
    ensures Includes(s, "") && StartsWith(s, "") && EndsWith(s, "")
  {
    assert "" <= s[0..];
  }

  /** A string occurs in any string built around it. */
  lemma IncludesMiddle(a: string, b: string, c: string)
    ensures Includes(a + b + c, b)
  {
    var s := a + b + c;
    assert s[|a|..] == b + c;
    assert b <= s[|a|..];
  }

  /** Appending to a string keeps every occurrence in it. */
  lemma IncludesExtend(s: string, sub: string, c: string)
    requires Includes(s, sub)
    ensures Includes(s + c, sub)
  {
    var k :| 0 <= k <= |s| - |sub| && sub <= s[k..];
    assert (s + c)[k..] == s[k..] + c;
  }

  // ---------------------------------------------------------------------------
  // to_s and Array#join

  /** `to_s`: nil becomes the empty string. */
  function ToS(x: Option<string>): string
  {
    if x.Some? then x.value else ""
  }

  /** `Array#join` with no separator: nil entries contribute nothing. */
  function Join(items: seq<Option<string>>): string
    decreases |items|
  {
    if |items| == 0 then "" else Join(items[..|items| - 1]) + ToS(items[|items| - 1])
  }

  /** An array of one-character entries that agrees, index by index, with
      `String#[i]` on `e` joins to the part of `e` it covers. */
  lemma {:induction false} JoinAgreeing(cells: seq<Option<string>>, e: string)
    requires forall j :: 0 <= j < |cells| ==> cells[j] == CharAt(e, j)
    ensures Join(cells) == e[..Min(|cells|, |e|)]
    decreases |cells|
  {
    if |cells| > 0 {
      var n := |cells| - 1;
      JoinAgreeing(cells[..n], e);
      if n < |e| {
        assert e[..n + 1] == e[..n] + [e[n]];
      }
    }
  }

  // ---------------------------------------------------------------------------
  // Integer#to_s and String#inspect

  function DigitChar(d: nat): char
    requires d < 10
  {
    "0123456789"[d]
  }

  /** `Integer#to_s` for a non-negative integer. */
  function NatToString(n: nat): (r: string)
    ensures |r| >= 1
    ensures forall i :: 0 <= i < |r| ==> '0' <= r[i] <= '9'
  {
    if n < 10 then [DigitChar(n)] else NatToString(n / 10) + [DigitChar(n % 10)]
  }

  /** The number a string of decimal digits denotes. */
  function DecimalValue(s: string): nat
    requires forall i :: 0 <= i < |s| ==> '0' <= s[i] <= '9'
  {
    if |s| == 0 then 0
    else DecimalValue(s[..|s| - 1]) * 10 + ((s[|s| - 1] as int) - ('0' as int))
  }

  /** Printing a number loses nothing: its digits denote it again. */
  lemma {:induction false} NatToStringValue(n: nat)
    ensures DecimalValue(NatToString(n)) == n
  {
    var r := NatToString(n);
    if n >= 10 {
      NatToStringValue(n / 10);
      assert r[..|r| - 1] == NatToString(n / 10);
    }
  }

  /** `Integer#to_s` (and `Integer#inspect`). */
  function IntToString(i: int): (r: string)
    ensures |r| >= 1
  {
    if i < 0 then "-" + NatToString(-i) else NatToString(i)
  }

  /** No comma appears in a printed integer. */
  lemma IntToStringNoComma(i: int)
    ensures forall k :: 0 <= k < |IntToString(i)| ==> IntToString(i)[k] != ','
  {
  }

  /** Distinct natural numbers print differently. */
  lemma NatToStringInjective(a: nat, b: nat)
    requires NatToString(a) == NatToString(b)
    ensures a == b
  {
    NatToStringValue(a);
    NatToStringValue(b);
  }

  /** A printed integer starts with a minus sign exactly when it is negative. */
  lemma IntToStringSign(i: int)
    ensures IntToString(i)[0] == '-' <==> i < 0
  {
    if i >= 0 {
      assert '0' <= NatToString(i)[0] <= '9';
    }
  }

  /** Distinct integers print differently. */
  lemma IntToStringInjective(a: int, b: int)
    requires IntToString(a) == IntToString(b)
    ensures a == b
  {
    IntToStringSign(a);
    IntToStringSign(b);
    var sa, sb := IntToString(a), IntToString(b);
    if a < 0 {
      assert NatToString(-a) == sa[1..] == sb[1..] == NatToString(-b);
      NatToStringInjective(-a, -b);
    } else {
      NatToStringInjective(a, b);
    }
  }

  /** How `String#inspect` writes one character, given the one after it. */
  function EscapeChar(c: char, next: Option<char>): string
  {
    match c
    case '"' => "\\\""
    case '\\' => "\\\\"
    case '\n' => "\\n"
    case '\t' => "\\t"
    case '\r' => "\\r"
    case '\U{000C}' => "\\f"
    case '\U{000B}' => "\\v"
    case '\U{0008}' => "\\b"
    case '\U{0007}' => "\\a"
    case '\U{001B}' => "\\e"
    case '#' => if next == Some('{') || next == Some('$') || next == Some('@') then "\\#" else "#"
    case _ => [c]
  }

  function Escape(s: string): string
    decreases |s|
  {
    if |s| == 0 then ""
    else EscapeChar(s[0], if |s| > 1 then Some(s[1]) else None) + Escape(s[1..])
  }

  /** `String#inspect`: the string quoted, with quotes, backslashes, the
      named control characters and interpolation-looking `#` escaped. */
  function Inspect(s: string): (r: string)
    ensures |r| >= 2 && r[0] == '"' && r[|r| - 1] == '"'
  {
    "\"" + Escape(s) + "\""
  }

  /** A character that `String#inspect` writes as itself. */
  predicate Plain(c: char) {
    c != '"' && c != '\\' && c != '#' && 32 <= c as int < 127
  }

  /** A string of plain characters inspects as itself between quotes. */
  lemma {:induction false} InspectPlain(s: string)
    requires forall i :: 0 <= i < |s| ==> Plain(s[i])
    ensures Inspect(s) == "\"" + s + "\""
  {
    EscapePlain(s);
  }

  lemma {:induction false} EscapePlain(s: string)
    requires forall i :: 0 <= i < |s| ==> Plain(s[i])
    ensures Escape(s) == s
    decreases |s|
  {
    if |s| > 0 {
      EscapePlain(s[1..]);
      assert s == [s[0]] + s[1..];
    }
  }
}
