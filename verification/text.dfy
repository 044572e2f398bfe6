/** String helpers with the semantics of the JavaScript built-ins the
    application uses: `includes`, `startsWith`, `substring`, `toLowerCase`,
    `Array.prototype.join`, `String.prototype.split` and the `<` comparison
    of strings.
 */
module Text {

  /** `s.startsWith(p)`. */
  predicate StartsWith(s: string, p: string) {
    |p| <= |s| && s[..|p|] == p
  }

  /** `sub` occurs in `s` starting at position `i`. */
  predicate OccursAt(s: string, sub: string, i: int) {
    0 <= i <= |s| - |sub| && s[i..i + |sub|] == sub
  }

  /** `s.includes(sub)`: `sub` occurs at some position of `s`. */
  predicate Contains(s: string, sub: string) {
    exists i | 0 <= i <= |s| - |sub| :: OccursAt(s, sub, i)
  }

  lemma ContainsEmpty(s: string)
    ensures Contains(s, "")
  {
    assert OccursAt(s, "", 0);
  }

  lemma ContainsSelf(s: string)
    ensures Contains(s, s)
  {
    assert OccursAt(s, s, 0);
  }

  /** `toLowerCase` restricted to the ASCII letters. */
  function LowerChar(c: char): (r: char)
    ensures 'A' <= c <= 'Z' ==> 'a' <= r <= 'z' && r as int - c as int == 32
    ensures !('A' <= c <= 'Z') ==> r == c
  {
    if 'A' <= c <= 'Z' then (c as int + 32) as char else c
  }

  function Lower(s: string): (r: string)
    ensures |r| == |s|
    ensures forall i :: 0 <= i < |s| ==> r[i] == LowerChar(s[i])
  {
    seq(|s|, i requires 0 <= i < |s| => LowerChar(s[i]))
  }

  /** Lexicographic order on code points. JavaScript's `a < b` compares
      UTF-16 code units instead; the two agree on the ASCII date strings
      this order is used for. */
  predicate LexLess(a: string, b: string)
    decreases |a|
  {
    if |a| == 0 then |b| > 0
    else if |b| == 0 then false
    else if a[0] != b[0] then a[0] < b[0]
    else LexLess(a[1..], b[1..])
  }

  /** No string precedes itself. */
  lemma {:induction false} LexLessIrreflexive(a: string)
    ensures !LexLess(a, a)
    decreases |a|
  {
    if |a| > 0 {
      LexLessIrreflexive(a[1..]);
    }
  }

  /** The order is total: of two different strings one precedes the other. */
  lemma {:induction false} LexLessTotal(a: string, b: string)
    ensures a == b || LexLess(a, b) || LexLess(b, a)
    decreases |a|
  {
    if |a| > 0 && |b| > 0 && a[0] == b[0] {
      LexLessTotal(a[1..], b[1..]);
      if a[1..] == b[1..] {
        assert a == [a[0]] + a[1..] && b == [b[0]] + b[1..];
      }
    }
  }

  /** `lines.join(sep)`. */
  function Join(lines: seq<string>, sep: char): (r: string)
    ensures |lines| == 1 ==> r == lines[0]
    decreases |lines|
  {
    if |lines| == 0 then ""
    else if |lines| == 1 then lines[0]
    else lines[0] + [sep] + Join(lines[1..], sep)
  }

  /** Index of the first `sep` in `s`, or `|s|` when there is none. */
  function FirstIndexOf(s: string, sep: char): (k: nat)
    ensures k <= |s|
    ensures forall j :: 0 <= j < k ==> s[j] != sep
    ensures k < |s| ==> s[k] == sep
    decreases |s|
  {
    if |s| == 0 then 0
    else if s[0] == sep then 0
    else 1 + FirstIndexOf(s[1..], sep)
  }

  /** `s.split(sep)` for a one-character separator. */
  function Split(s: string, sep: char): (r: seq<string>)
    ensures |r| >= 1
    decreases |s|
  {
    var k := FirstIndexOf(s, sep);
    if k == |s| then [s] else [s[..k]] + Split(s[k + 1..], sep)
  }

  /** The part of `s` before the first `sep`: `s.split(sep)[0]`. */
  function Before(s: string, sep: char): (r: string)
    ensures r == Split(s, sep)[0]
    ensures r <= s && sep !in r
    ensures r == s || s[|r|] == sep
  {
    s[..FirstIndexOf(s, sep)]
  }

  /** Splitting a join of separator-free, non-empty-list lines gives the lines back. */
  lemma {:induction false} SplitJoin(lines: seq<string>, sep: char)
    requires |lines| >= 1
    requires forall i :: 0 <= i < |lines| ==> sep !in lines[i]
    ensures Split(Join(lines, sep), sep) == lines
    decreases |lines|
  {
    if |lines| == 1 {
      NoSepIndex(lines[0], sep);
    } else {
      var rest := Join(lines[1..], sep);
      var s := lines[0] + [sep] + rest;
      assert Join(lines, sep) == s;
      FirstIndexAfterFreePrefix(lines[0], sep, rest);
      assert s[..|lines[0]|] == lines[0];
      assert s[|lines[0]| + 1..] == rest;
      SplitJoin(lines[1..], sep);
      assert [lines[0]] + lines[1..] == lines;
    }
  }

  lemma {:induction false} NoSepIndex(s: string, sep: char)
    requires sep !in s
    ensures FirstIndexOf(s, sep) == |s|
    decreases |s|
  {
    if |s| > 0 {
      assert s[0] in s;
      assert forall c :: c in s[1..] ==> c in s;
      NoSepIndex(s[1..], sep);
    }
  }

  lemma {:induction false} FirstIndexAfterFreePrefix(p: string, sep: char, rest: string)
    requires sep !in p
    ensures FirstIndexOf(p + [sep] + rest, sep) == |p|
    decreases |p|
  {
    var s := p + [sep] + rest;
    if |p| > 0 {
      assert p[0] in p;
      assert s[1..] == p[1..] + [sep] + rest;
      assert forall c :: c in p[1..] ==> c in p;
      FirstIndexAfterFreePrefix(p[1..], sep, rest);
    }
  }

  /** Decimal digits of a natural number, most significant first. */
  function NatToString(n: nat): (r: string)
    ensures |r| >= 1
    ensures forall i :: 0 <= i < |r| ==> '0' <= r[i] <= '9'
    decreases n
  {
    var d := ['0' + (n % 10) as char];
    if n < 10 then d else NatToString(n / 10) + d
  }

  /** `String(n)` for an integer. */
  function IntToString(n: int): (r: string)
    ensures |r| >= 1
    ensures n < 0 <==> r[0] == '-'
  {
    if n < 0 then "-" + NatToString(-n) else NatToString(n)
  }
}
