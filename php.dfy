/**
 * The PHP built-ins the modelled code relies on, over Dafny strings (sequences of Unicode
 * scalar values, as the mb_* functions see them) and sequences.
 */
module Php {
  import opened Wrappers
  import opened Seqs

  // ---------------------------------------------------------------- empty()

  /** empty() of a string: only "" and "0" are empty. */
  predicate IsEmptyString(s: string) {
    s == "" || s == "0"
  }

  // ---------------------------------------------------------------- trim()

  /** The characters trim() strips by default: space, tab, LF, CR, NUL and vertical tab. */
  predicate IsTrimChar(c: char) {
    c == ' ' || c == '\t' || c == '\n' || c == '\r' || c == '\0' || c == '\U{B}'
  }

  function TrimLeft(s: string): (r: string)
    ensures |r| <= |s| && r == s[|s| - |r|..]
    ensures |r| > 0 ==> !IsTrimChar(r[0])
    ensures forall k | 0 <= k < |s| - |r| :: IsTrimChar(s[k])
  {
    if |s| > 0 && IsTrimChar(s[0]) then TrimLeft(s[1..]) else s
  }

  function TrimRight(s: string): (r: string)
    ensures |r| <= |s| && r == s[..|r|]
    ensures |r| > 0 ==> !IsTrimChar(r[|r| - 1])
    ensures forall k | |r| <= k < |s| :: IsTrimChar(s[k])
  {
    if |s| > 0 && IsTrimChar(s[|s| - 1]) then TrimRight(s[..|s| - 1]) else s
  }

  /** Neither end is a character trim() strips. */
  predicate IsTrimmed(s: string) {
    |s| == 0 || (!IsTrimChar(s[0]) && !IsTrimChar(s[|s| - 1]))
  }

  /** trim($s): the longest piece of s that starts and ends with a character trim() keeps. */
  function Trim(s: string): (r: string)
    ensures IsTrimmed(r)
    ensures |r| <= |s|
  {
    TrimRight(TrimLeft(s))
  }

  lemma TrimKeepsTrimmed(s: string)
    requires IsTrimmed(s)
    ensures Trim(s) == s
  {
  }

  /** Stripping is unaffected by one more strippable character at either end. */
  lemma TrimIgnoresPadding(c: char, s: string)
    requires IsTrimChar(c)
    ensures Trim([c] + s) == Trim(s) && Trim(s + [c]) == Trim(s)
  {
    assert ([c] + s)[1..] == s;
    TrimRightOfPadded(c, TrimLeft(s));
    TrimLeftOfPadded(c, s);
  }

  /** A trimmed string padded on both sides with a strippable character trims back to itself. */
  lemma TrimOfPadded(c: char, s: string)
    requires IsTrimChar(c) && IsTrimmed(s)
    ensures Trim([c] + s + [c]) == s
  {
    var padded := s + [c];
    assert [c] + s + [c] == [c] + padded;
    TrimIgnoresPadding(c, padded);
    assert Trim([c] + padded) == Trim(padded);
    TrimIgnoresPadding(c, s);
    assert Trim(padded) == Trim(s);
    TrimKeepsTrimmed(s);
  }

  lemma TrimRightOfPadded(c: char, t: string)
    requires IsTrimChar(c)
    ensures TrimRight(t + [c]) == TrimRight(t)
  {
    assert (t + [c])[..|t + [c]| - 1] == t;
  }

  lemma {:induction false} TrimLeftOfPadded(c: char, s: string)
    requires IsTrimChar(c)
    ensures TrimRight(TrimLeft(s + [c])) == TrimRight(TrimLeft(s))
  {
    if |s| > 0 && IsTrimChar(s[0]) {
      assert (s + [c])[1..] == s[1..] + [c];
      TrimLeftOfPadded(c, s[1..]);
    } else if |s| == 0 {
      assert s + [c] == [c];
      assert TrimLeft([c]) == TrimLeft([c][1..]);
      assert [c][1..] == [];
    } else {
      TrimRightOfPadded(c, s);
    }
  }

  // ---------------------------------------------------------------- mb_strtolower()

  /**
   * Lower-case mapping of one character: ASCII letters and the nine Polish capitals.
   * Every other character is left as it is (the full Unicode table is not modelled).
   */
  function LowerChar(c: char): char {
    if 'A' <= c <= 'Z' then (c as int + 32) as char
    else if c == 'Ą' then 'ą'
    else if c == 'Ć' then 'ć'
    else if c == 'Ę' then 'ę'
    else if c == 'Ł' then 'ł'
    else if c == 'Ń' then 'ń'
    else if c == 'Ó' then 'ó'
    else if c == 'Ś' then 'ś'
    else if c == 'Ź' then 'ź'
    else if c == 'Ż' then 'ż'
    else c
  }

  /** mb_strtolower($s), character by character. */
  function Lower(s: string): (r: string)
    ensures |r| == |s|
    ensures forall i | 0 <= i < |s| :: r[i] == LowerChar(s[i])
  {
    seq(|s|, i requires 0 <= i < |s| => LowerChar(s[i]))
  }

  lemma LowerCharIdempotent(c: char)
    ensures LowerChar(LowerChar(c)) == LowerChar(c)
    ensures IsTrimChar(LowerChar(c)) == IsTrimChar(c)
  {
  }

  /** Lower-casing a trimmed string leaves it trimmed. */
  lemma LowerKeepsTrimmed(s: string)
    requires IsTrimmed(s)
    ensures IsTrimmed(Lower(s))
  {
    if |s| > 0 {
      LowerCharIdempotent(s[0]);
      LowerCharIdempotent(s[|s| - 1]);
    }
  }

  lemma LowerIdempotent(s: string)
    ensures Lower(Lower(s)) == Lower(s)
  {
    forall i | 0 <= i < |s| ensures Lower(Lower(s))[i] == Lower(s)[i] {
      LowerCharIdempotent(s[i]);
    }
  }

  lemma {:induction false} TrimLeftCommutesWithLower(s: string)
    ensures TrimLeft(Lower(s)) == Lower(TrimLeft(s))
  {
    if |s| > 0 {
      LowerCharIdempotent(s[0]);
      assert Lower(s)[1..] == Lower(s[1..]);
      TrimLeftCommutesWithLower(s[1..]);
    } else {
      assert Lower(s) == [];
    }
  }

  lemma {:induction false} TrimRightCommutesWithLower(s: string)
    ensures TrimRight(Lower(s)) == Lower(TrimRight(s))
  {
    if |s| > 0 {
      LowerCharIdempotent(s[|s| - 1]);
      assert Lower(s)[..|s| - 1] == Lower(s[..|s| - 1]);
      TrimRightCommutesWithLower(s[..|s| - 1]);
    } else {
      assert Lower(s) == [];
    }
  }

  /** Lower-casing neither creates nor removes characters that trim() strips. */
  lemma TrimCommutesWithLower(s: string)
    ensures Trim(Lower(s)) == Lower(Trim(s))
  {
    TrimLeftCommutesWithLower(s);
    TrimRightCommutesWithLower(TrimLeft(s));
  }

  // ---------------------------------------------------------------- mb_strpos() !== false

  predicate OccursAt(hay: string, needle: string, i: int) {
    0 <= i && i + |needle| <= |hay| && hay[i..i + |needle|] == needle
  }

  /** mb_strpos($hay, $needle) !== false: needle occurs somewhere in hay (not a whole-word test). */
  predicate Contains(hay: string, needle: string) {
    exists i | 0 <= i <= |hay| - |needle| :: OccursAt(hay, needle, i)
  }

  // ---------------------------------------------------------------- strlen()

  /** Bytes taken by one character in UTF-8. */
  function Utf8Width(c: char): nat {
    if c as int < 0x80 then 1
    else if c as int < 0x800 then 2
    else if c as int < 0x10000 then 3
    else 4
  }

  /** strlen($s): the number of bytes of the UTF-8 encoding, not the number of characters. */
  function Utf8Length(s: string): (n: nat)
    ensures n >= |s|
  {
    if |s| == 0 then 0 else Utf8Width(s[0]) + Utf8Length(s[1..])
  }

  // ---------------------------------------------------------------- explode() / implode()

  function IndexOfSpace(s: string): (k: nat)
    ensures k <= |s| && (k < |s| ==> s[k] == ' ')
    ensures forall i | 0 <= i < k :: s[i] != ' '
  {
    if |s| == 0 || s[0] == ' ' then 0 else 1 + IndexOfSpace(s[1..])
  }

  /** explode(' ', $s): the pieces between single spaces; "" gives [""]. */
  function Explode(s: string): (pieces: seq<string>)
    ensures |pieces| >= 1
    ensures forall p | p in pieces :: ' ' !in p
    decreases |s|
  {
    var k := IndexOfSpace(s);
    if k == |s| then
      assert forall i | 0 <= i < |s| :: s[i] != ' ';
      [s]
    else
      assert forall i | 0 <= i < k :: s[..k][i] != ' ';
      [s[..k]] + Explode(s[k + 1..])
  }

  /** implode($glue, $pieces). */
  function Implode(glue: string, pieces: seq<string>): string {
    if |pieces| == 0 then ""
    else if |pieces| == 1 then pieces[0]
    else pieces[0] + glue + Implode(glue, pieces[1..])
  }

  /** One step of explode: the piece before the first space, then the pieces of the rest. */
  lemma ExplodeStep(s: string)
    requires IndexOfSpace(s) < |s|
    ensures Explode(s) == [s[..IndexOfSpace(s)]] + Explode(s[IndexOfSpace(s) + 1..])
    ensures s == s[..IndexOfSpace(s)] + " " + s[IndexOfSpace(s) + 1..]
  {
    var k := IndexOfSpace(s);
    assert [s[k]] == " ";
    SplitAround(s, k);
  }

  lemma SplitAround<T>(s: seq<T>, k: nat)
    requires k < |s|
    ensures s == s[..k] + [s[k]] + s[k + 1..]
  {
  }

  /** Joining a first piece on to at least one more. */
  lemma ImplodeCons(glue: string, first: string, rest: seq<string>)
    requires |rest| >= 1
    ensures Implode(glue, [first] + rest) == first + glue + Implode(glue, rest)
  {
    assert ([first] + rest)[1..] == rest;
  }

  /** implode(' ', explode(' ', $s)) gives back $s. */
  lemma {:induction false} ImplodeExplode(s: string)
    ensures Implode(" ", Explode(s)) == s
    decreases |s|
  {
    var k := IndexOfSpace(s);
    if k < |s| {
      ExplodeStep(s);
      ImplodeExplode(s[k + 1..]);
      ImplodeCons(" ", s[..k], Explode(s[k + 1..]));
    }
  }

  /** Joining the first n pieces of explode(' ', $s) gives a prefix of $s. */
  lemma ImplodedPrefix(s: string, n: nat)
    ensures Implode(" ", Explode(s)[..Min(n, |Explode(s)|)]) <= s
  {
    ImplodedPieces(s, Min(n, |Explode(s)|));
  }

  lemma {:induction false} ImplodedPieces(s: string, m: nat)
    requires m <= |Explode(s)|
    ensures Implode(" ", Explode(s)[..m]) <= s
    decreases |s|
  {
    var k := IndexOfSpace(s);
    if m == 0 {
      assert Explode(s)[..0] == [];
    } else if k == |s| {
      assert Explode(s)[..m] == [s];
    } else {
      ExplodeStep(s);
      var head, rest := s[..k], Explode(s[k + 1..]);
      assert Explode(s)[..m] == [head] + rest[..m - 1];
      if m == 1 {
        assert Explode(s)[..m] == [head];
        PrefixOfJoin(head, [], " " + s[k + 1..]);
      } else {
        ImplodedPieces(s[k + 1..], m - 1);
        ImplodeCons(" ", head, rest[..m - 1]);
        PrefixOfJoin(head + " ", Implode(" ", rest[..m - 1]), s[k + 1..]);
      }
    }
  }

  /** A prefix of the tail, after a common head, is a prefix of the whole. */
  lemma PrefixOfJoin(head: string, tail: string, rest: string)
    requires tail <= rest
    ensures head + tail <= head + rest
  {
  }

  // ---------------------------------------------------------------- array_slice($xs, 0, $length)

  /** array_slice($xs, 0, $length): a negative length leaves that many elements off the end. */
  function SliceFromStart<T>(xs: seq<T>, length: int): (r: seq<T>)
    ensures 0 <= length ==> r == xs[..Min(length, |xs|)]
    ensures length < 0 ==> r == xs[..Max(|xs| + length, 0)]
  {
    if length >= 0 then xs[..Min(length, |xs|)] else xs[..Max(|xs| + length, 0)]
  }

  // ---------------------------------------------------------------- decoded JSON

  /** The decimal digits of n, as string interpolation of an int writes them. */
  function NatToString(n: nat): (r: string)
    ensures |r| >= 1 && forall k | 0 <= k < |r| :: '0' <= r[k] <= '9'
  {
    if n < 10 then [('0' as int + n) as char] else NatToString(n / 10) + NatToString(n % 10)
  }

  /** An array key: PHP turns decimal-integer string keys into integer keys. */
  datatype Key = IntKey(i: int) | StrKey(s: string)

  /** A value as json_decode(..., true) returns it: objects and lists both become ordered arrays. */
  datatype Value =
    | Null
    | Bool(b: bool)
    | Int(i: int)
    | Float(nonZero: bool)
    | Str(s: string)
    | Arr(entries: seq<(Key, Value)>)

  /**
   * The boolean value of a decoded JSON value, as `if ($v)` and `!$v` read it: null, false, 0, 0.0,
   * "", "0" and the empty array are false. Only whether a float is zero is recorded.
   */
  predicate Truthy(v: Value) {
    match v
    case Null => false
    case Bool(b) => b
    case Int(i) => i != 0
    case Float(nonZero) => nonZero
    case Str(s) => !IsEmptyString(s)
    case Arr(entries) => |entries| > 0
  }

  /** The values of an array in order, as foreach visits them. */
  function Values(entries: seq<(Key, Value)>): (vs: seq<Value>)
    ensures |vs| == |entries| && forall i | 0 <= i < |entries| :: vs[i] == entries[i].1
  {
    seq(|entries|, i requires 0 <= i < |entries| => entries[i].1)
  }

  function Lookup(entries: seq<(Key, Value)>, key: Key): (r: Option<Value>)
    ensures r.Some? ==> exists i | 0 <= i < |entries| :: entries[i] == (key, r.value)
    ensures r.None? ==> forall i | 0 <= i < |entries| :: entries[i].0 != key
  {
    if |entries| == 0 then None
    else if entries[0].0 == key then Some(entries[0].1)
    else
      var r := Lookup(entries[1..], key);
      assert forall i | 1 <= i < |entries| :: entries[i] == entries[1..][i - 1];
      r
  }

  /** An array of two entries under different string keys. */
  lemma IssetOfTwoEntries(k1: string, v1: Value, k2: string, v2: Value)
    requires k1 != k2 && !v1.Null? && !v2.Null?
    ensures Isset(Arr([(StrKey(k1), v1), (StrKey(k2), v2)]), k1) == Some(v1)
    ensures Isset(Arr([(StrKey(k1), v1), (StrKey(k2), v2)]), k2) == Some(v2)
  {
    var entries := [(StrKey(k1), v1), (StrKey(k2), v2)];
    assert StrKey(k2) != StrKey(k1);
    assert entries[1..] == [(StrKey(k2), v2)];
    assert Lookup(entries, StrKey(k2)) == Lookup(entries[1..], StrKey(k2));
  }

  /** isset($v[$key]) for a string key: $v is an array holding a non-null value at $key. */
  function Isset(v: Value, key: string): (r: Option<Value>)
    ensures r.Some? ==> v.Arr? && Lookup(v.entries, StrKey(key)) == r && !r.value.Null?
    ensures v.Arr? && Lookup(v.entries, StrKey(key)).Some? && !Lookup(v.entries, StrKey(key)).value.Null? ==>
              r == Lookup(v.entries, StrKey(key))
  {
    match v
    case Arr(entries) =>
      (match Lookup(entries, StrKey(key))
       case Some(x) => if x.Null? then None else Some(x)
       case None => None)
    case _ => None
  }
}
