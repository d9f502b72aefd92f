/** The PHP built-ins the controller applies to slug text and request values:
    truthiness, `explode`, `implode`, `str_replace` on one character and
    `substr`. Strings are sequences of characters. PHP works on bytes; the two
    views agree for `explode`, `implode` and `str_replace` on the one-byte
    characters used here, and for `substr(s, 1)` when `s` starts with a
    one-byte character. */
module Php {
  import opened Results

  /** PHP's `!$x` (and `empty($x)`) for a value that is either absent or a
      string: `null`, `""` and `"0"` are falsy, every other string is truthy. */
  predicate Falsy(v: Option<string>): (b: bool)
    ensures v.None? ==> b
    ensures v.Some? && |v.value| != 1 ==> (b <==> v.value == "")
    ensures v.Some? && |v.value| == 1 ==> (b <==> v.value[0] == '0')
  {
    v.None? || v.value == "" || v.value == "0"
  }

  /** Number of occurrences of `c` in `s`. */
  function Count(c: char, s: string): nat {
    multiset(s)[c]
  }

  /** `str_replace(search, replace, subject)` with one-character `search` and
      `replace`: every occurrence of `search` becomes `replace`. */
  function StrReplace(search: char, replace: char, subject: string): (r: string)
    ensures |r| == |subject|
    ensures forall i :: 0 <= i < |subject| ==>
      r[i] == (if subject[i] == search then replace else subject[i])
    ensures search != replace ==> search !in r
    decreases |subject|
  {
    if |subject| == 0 then ""
    else [if subject[0] == search then replace else subject[0]]
         + StrReplace(search, replace, subject[1..])
  }

  /** `substr(s, start)` for a non-negative `start`: the text from position
      `start` on, and the empty string when `s` is shorter than that (PHP 8;
      PHP 7 returned `false` there). Positions count characters, where PHP
      counts bytes. */
  function Substr(s: string, start: nat): (r: string)
    ensures start <= |s| ==> s[..start] + r == s
    ensures |s| <= start ==> r == ""
  {
    if |s| <= start then "" else s[start..]
  }

  /** Position of the first `c` in `s`. */
  function FirstIndex(c: char, s: string): (i: nat)
    requires c in s
    ensures i < |s| && s[i] == c
    ensures forall k :: 0 <= k < i ==> s[k] != c
  {
    if s[0] == c then 0 else 1 + FirstIndex(c, s[1..])
  }

  /** `implode(sep, parts)`: the parts joined with `sep` between neighbours. */
  function Implode(sep: char, parts: seq<string>): (r: string)
    ensures |parts| >= 1 ==> parts[0] <= r
    decreases |parts|
  {
    if |parts| == 0 then ""
    else if |parts| == 1 then parts[0]
    else parts[0] + [sep] + Implode(sep, parts[1..])
  }

  /** True when no part contains `sep`. */
  predicate SeparatorFree(sep: char, parts: seq<string>) {
    forall k :: 0 <= k < |parts| ==> sep !in parts[k]
  }

  /** `explode(sep, s)` for a one-character separator: the maximal
      separator-free pieces of `s`, read left to right. There is always at
      least one piece (`explode('/', "")` is `[""]`), and joining the pieces
      again gives back `s`. */
  function Explode(sep: char, s: string): (parts: seq<string>)
    ensures |parts| >= 1
    ensures SeparatorFree(sep, parts)
    ensures Implode(sep, parts) == s
    decreases |s|
  {
    if sep !in s then [s]
    else
      var i := FirstIndex(sep, s);
      var rest := Explode(sep, s[i + 1..]);
      assert s == s[..i] + [sep] + s[i + 1..];
      [s[..i]] + rest
  }

  /** Joining one more part appends a separator and that part. */
  lemma {:induction false} ImplodeSnoc(sep: char, parts: seq<string>, last: string)
    requires |parts| >= 1
    ensures Implode(sep, parts + [last]) == Implode(sep, parts) + [sep] + last
    decreases |parts|
  {
    var ps := parts + [last];
    if |parts| == 1 {
      assert ps[1..] == [last];
    } else {
      assert ps[0] == parts[0];
      assert ps[1..] == parts[1..] + [last];
      ImplodeSnoc(sep, parts[1..], last);
    }
  }

  /** Joining separator-free parts puts exactly one separator between each
      pair of neighbours and nowhere else. */
  lemma {:induction false} ImplodeCount(sep: char, parts: seq<string>)
    requires |parts| >= 1
    requires SeparatorFree(sep, parts)
    ensures Count(sep, Implode(sep, parts)) == |parts| - 1
    decreases |parts|
  {
    if |parts| > 1 {
      ImplodeCount(sep, parts[1..]);
      assert sep !in parts[0];
      assert multiset(parts[0])[sep] == 0;
      assert multiset(parts[0] + [sep] + Implode(sep, parts[1..]))
          == multiset(parts[0]) + multiset([sep]) + multiset(Implode(sep, parts[1..]));
    } else {
      assert sep !in parts[0];
      assert multiset(parts[0])[sep] == 0;
    }
  }

  /** `explode` yields one piece more than there are separators. */
  lemma ExplodeCount(sep: char, s: string)
    ensures |Explode(sep, s)| == Count(sep, s) + 1
  {
    ImplodeCount(sep, Explode(sep, s));
  }

  /** `explode` is the only way to cut `s` into separator-free pieces that
      join back to `s`: it inverts `implode` on such pieces. */
  lemma {:induction false} ExplodeUnique(sep: char, parts: seq<string>, s: string)
    requires |parts| >= 1
    requires SeparatorFree(sep, parts)
    requires Implode(sep, parts) == s
    ensures Explode(sep, s) == parts
    decreases |parts|
  {
    if |parts| == 1 {
      assert sep !in parts[0];
    } else {
      var n := |parts[0]|;
      var tail := Implode(sep, parts[1..]);
      assert s == parts[0] + [sep] + tail;
      assert s[n] == sep;
      assert sep !in parts[0];
      assert forall k :: 0 <= k < n ==> s[k] == parts[0][k];
      var i := FirstIndex(sep, s);
      assert i == n;
      assert s[..n] == parts[0];
      assert s[n + 1..] == tail;
      ExplodeUnique(sep, parts[1..], tail);
      assert parts == [parts[0]] + parts[1..];
    }
  }
}
