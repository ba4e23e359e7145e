/**
 * The .NET string operations the relay applies to request, header and
 * status lines. The lines come from readers that decode ASCII, so the
 * case mappings only need to cover ASCII letters.
 */
module Text {
  import opened Common

  /** `char.IsWhiteSpace`: U+0009 to U+000D, U+0085 and the Unicode space and line/paragraph separators. */
  predicate IsWhiteSpace(c: char) {
    var u := c as int;
    u == 0x20 || (0x09 <= u <= 0x0D) || u == 0x85 || u == 0xA0 || u == 0x1680
    || (0x2000 <= u <= 0x200A) || u == 0x2028 || u == 0x2029 || u == 0x202F
    || u == 0x205F || u == 0x3000
  }

  /** Every character is white space (true of the empty string). */
  predicate IsBlank(s: string) {
    forall i :: 0 <= i < |s| ==> IsWhiteSpace(s[i])
  }

  /** `string.IsNullOrWhiteSpace`, with `None` for null. */
  predicate IsNullOrWhiteSpace(s: Option<string>) {
    s.None? || IsBlank(s.value)
  }

  /** The number of white-space characters `s` starts with. */
  function LeadingWhiteSpace(s: string): (n: nat)
    ensures n <= |s|
    ensures forall i :: 0 <= i < n ==> IsWhiteSpace(s[i])
    ensures n < |s| ==> !IsWhiteSpace(s[n])
  {
    if |s| == 0 || !IsWhiteSpace(s[0]) then 0 else 1 + LeadingWhiteSpace(s[1..])
  }

  /** The number of white-space characters `s` ends with. */
  function TrailingWhiteSpace(s: string): (n: nat)
    ensures n <= |s|
    ensures forall i :: |s| - n <= i < |s| ==> IsWhiteSpace(s[i])
    ensures n < |s| ==> !IsWhiteSpace(s[|s| - 1 - n])
  {
    if |s| == 0 || !IsWhiteSpace(s[|s| - 1]) then 0 else 1 + TrailingWhiteSpace(s[..|s| - 1])
  }

  /** `string.Trim()`: white space removed from both ends. */
  function Trim(s: string): string {
    var t := s[LeadingWhiteSpace(s)..];
    t[..|t| - TrailingWhiteSpace(t)]
  }

  function ToLowerChar(c: char): char {
    if 'A' <= c <= 'Z' then (c as int + 32) as char else c
  }

  /** `string.ToLower()` on ASCII text. */
  function ToLower(s: string): (r: string)
    ensures |r| == |s|
    ensures forall i :: 0 <= i < |s| ==> r[i] == ToLowerChar(s[i])
  {
    if |s| == 0 then [] else [ToLowerChar(s[0])] + ToLower(s[1..])
  }

  /** `s.StartsWith(prefix, StringComparison.OrdinalIgnoreCase)` on ASCII text. */
  predicate StartsWithIgnoreCase(s: string, prefix: string) {
    |prefix| <= |s| && forall i :: 0 <= i < |prefix| ==> ToLowerChar(s[i]) == ToLowerChar(prefix[i])
  }

  /** Position of the first `c` in `s`. */
  function IndexOf(s: string, c: char): (i: nat)
    requires c in s
    ensures i < |s| && s[i] == c && c !in s[..i]
  {
    if s[0] == c then 0
    else
      var j := IndexOf(s[1..], c);
      assert s[..j + 1] == [s[0]] + s[1..][..j];
      j + 1
  }

  /** `string.Join(sep, parts)`. */
  function Join(parts: seq<string>, sep: char): string
    decreases |parts|
  {
    if |parts| == 0 then ""
    else if |parts| == 1 then parts[0]
    else parts[0] + [sep] + Join(parts[1..], sep)
  }

  /**
   * `s.Split(sep)`: the pieces between consecutive separators, empty pieces
   * kept. The three ensures determine the result (see SplitUnique).
   */
  function Split(s: string, sep: char): (parts: seq<string>)
    ensures |parts| >= 1
    ensures forall k :: 0 <= k < |parts| ==> sep !in parts[k]
    ensures Join(parts, sep) == s
    decreases |s|
  {
    if sep !in s then [s]
    else
      var i := IndexOf(s, sep);
      var tail := Split(s[i + 1..], sep);
      assert s == s[..i] + [sep] + s[i + 1..];
      assert ([s[..i]] + tail)[1..] == tail;
      [s[..i]] + tail
  }

  lemma SplitUnfold(s: string, sep: char)
    requires sep in s
    ensures Split(s, sep) == [s[..IndexOf(s, sep)]] + Split(s[IndexOf(s, sep) + 1..], sep)
  {
  }

  /** A string splits into one more piece than it has separators. */
  lemma {:induction false} SplitCount(s: string, sep: char)
    ensures |Split(s, sep)| == multiset(s)[sep] + 1
    decreases |s|
  {
    if sep in s {
      var i := IndexOf(s, sep);
      assert s == s[..i] + [sep] + s[i + 1..];
      assert multiset(s) == multiset(s[..i]) + multiset{sep} + multiset(s[i + 1..]);
      assert multiset(s[..i])[sep] == 0;
      SplitCount(s[i + 1..], sep);
    } else {
      assert multiset(s)[sep] == 0;
    }
  }

  /** Split is the only way to cut `s` into separator-free pieces that join back to `s`. */
  lemma {:induction false} SplitUnique(s: string, sep: char, parts: seq<string>)
    requires |parts| >= 1
    requires forall k :: 0 <= k < |parts| ==> sep !in parts[k]
    requires Join(parts, sep) == s
    ensures parts == Split(s, sep)
    decreases |parts|
  {
    if |parts| == 1 {
      assert s == parts[0];
    } else {
      var p := parts[0];
      var more := Join(parts[1..], sep);
      assert s == p + [sep] + more;
      assert s[|p|] == sep;
      assert s[..|p|] == p;
      var i := IndexOf(s, sep);
      assert i == |p|;
      assert s[i + 1..] == more;
      SplitUnique(more, sep, parts[1..]);
      assert parts == [p] + parts[1..];
    }
  }

  /** Three separator-free fields joined by single separators split back into those fields. */
  lemma SplitThree(a: string, b: string, c: string, sep: char)
    requires sep !in a && sep !in b && sep !in c
    ensures Split(a + [sep] + b + [sep] + c, sep) == [a, b, c]
  {
    var parts := [a, b, c];
    assert parts[1..] == [b, c];
    assert parts[1..][1..] == [c];
    assert Join([b, c], sep) == b + [sep] + c;
    assert Join(parts, sep) == a + [sep] + (b + [sep] + c);
    assert a + [sep] + b + [sep] + c == a + [sep] + (b + [sep] + c);
    SplitUnique(a + [sep] + b + [sep] + c, sep, parts);
  }

  /**
   * `s.Split(new[] { sep }, count, StringSplitOptions.None)`: at most `count`
   * pieces; the last keeps the rest of the string, separators included.
   */
  function SplitAtMost(s: string, sep: char, count: nat): (parts: seq<string>)
    requires count >= 1
    ensures 1 <= |parts| <= count
    ensures Join(parts, sep) == s
    ensures forall k :: 0 <= k < |parts| - 1 ==> sep !in parts[k]
    ensures |parts| < count ==> sep !in parts[|parts| - 1]
    decreases count
  {
    if count == 1 || sep !in s then [s]
    else
      var i := IndexOf(s, sep);
      var tail := SplitAtMost(s[i + 1..], sep, count - 1);
      assert s == s[..i] + [sep] + s[i + 1..];
      assert ([s[..i]] + tail)[1..] == tail;
      [s[..i]] + tail
  }

  lemma SplitAtMostUnfold(s: string, sep: char, count: nat)
    requires sep in s && count > 1
    ensures SplitAtMost(s, sep, count)
      == [s[..IndexOf(s, sep)]] + SplitAtMost(s[IndexOf(s, sep) + 1..], sep, count - 1)
  {
  }

  /** Splitting with a limit agrees with the unlimited split on every piece but the last. */
  lemma {:induction false} SplitAtMostAgrees(s: string, sep: char, count: nat)
    requires count >= 1
    ensures |SplitAtMost(s, sep, count)| == Min(count, |Split(s, sep)|)
    ensures forall k :: 0 <= k < |SplitAtMost(s, sep, count)| - 1 ==>
      SplitAtMost(s, sep, count)[k] == Split(s, sep)[k]
    decreases count
  {
    if sep !in s {
      assert Split(s, sep) == [s];
    } else if count > 1 {
      var i := IndexOf(s, sep);
      var rest := s[i + 1..];
      SplitUnfold(s, sep);
      SplitAtMostUnfold(s, sep, count);
      SplitAtMostAgrees(rest, sep, count - 1);
      AgreeCons(s[..i], SplitAtMost(rest, sep, count - 1), Split(rest, sep));
    }
  }

  lemma AgreeCons(p: string, limited: seq<string>, full: seq<string>)
    requires |limited| <= |full|
    requires forall k :: 0 <= k < |limited| - 1 ==> limited[k] == full[k]
    ensures forall k :: 0 <= k < |[p] + limited| - 1 ==> ([p] + limited)[k] == ([p] + full)[k]
  {
  }

  /** When the limit is not reached, the limited split is the plain split. */
  lemma SplitAtMostShort(s: string, sep: char, count: nat)
    requires count >= 1
    requires |SplitAtMost(s, sep, count)| < count
    ensures SplitAtMost(s, sep, count) == Split(s, sep)
  {
    SplitUnique(s, sep, SplitAtMost(s, sep, count));
  }
}
