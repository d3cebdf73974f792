/** The few JavaScript string operations the scanner relies on:
    `indexOf` and `split` with a one-character separator, `includes`,
    reading an array slot that may be `undefined`, the string conversion
    a platform function applies to its argument, and lower-casing. */
module JsStrings {

  datatype Option<T> = None | Some(value: T)

  /** `s.indexOf(c)`: the position of the first `c`, or -1 when there is none. */
  function IndexOf(s: string, c: char): (r: int)
    ensures r == -1 <==> c !in s
    ensures r >= 0 ==> r < |s| && s[r] == c && c !in s[..r]
  {
    if s == [] then -1
    else if s[0] == c then 0
    else
      var k := IndexOf(s[1..], c);
      assert s[1..][..(if k < 0 then 0 else k)] == s[1..(if k < 0 then 1 else k + 1)];
      if k < 0 then -1 else k + 1
  }

  /** `s.split(sep)` for a one-character separator: the pieces between
      consecutive occurrences of `sep`, always at least one. */
  function Split(s: string, sep: char): (parts: seq<string>)
    ensures |parts| >= 1
    decreases |s|
  {
    var i := IndexOf(s, sep);
    if i < 0 then [s] else [s[..i]] + Split(s[i + 1..], sep)
  }

  /** Joining the pieces with the separator, the inverse of `Split`. */
  function Join(parts: seq<string>, sep: char): string
  {
    if |parts| <= 1 then (if parts == [] then "" else parts[0])
    else parts[0] + [sep] + Join(parts[1..], sep)
  }

  /** `parts[i]`, which is `undefined` past the end of the array. */
  function Element(parts: seq<string>, i: nat): (r: Option<string>)
    ensures r.Some? <==> i < |parts|
    ensures r.Some? ==> r.value == parts[i]
  {
    if i < |parts| then Some(parts[i]) else None
  }

  /** The text before the first `sep` (all of `s` when there is none). */
  function Before(s: string, sep: char): (r: string)
    ensures sep !in r && r <= s
    ensures sep in s ==> |r| < |s| && s[|r|] == sep
    ensures sep !in s ==> r == s
  {
    var i := IndexOf(s, sep);
    if i < 0 then s else s[..i]
  }

  /** The text after the first `sep`; only meaningful when `sep` occurs. */
  function After(s: string, sep: char): (r: string)
    requires sep in s
  {
    s[IndexOf(s, sep) + 1..]
  }

  /** The string is the text before its first `sep`, that `sep`, and the text after it. */
  lemma BeforeAfter(s: string, sep: char)
    requires sep in s
    ensures s == Before(s, sep) + [sep] + After(s, sep)
  {
  }

  /** Joining a piece in front of at least one more puts a separator between. */
  lemma JoinCons(head: string, tail: seq<string>, sep: char)
    requires |tail| >= 1
    ensures Join([head] + tail, sep) == head + [sep] + Join(tail, sep)
  {
    assert ([head] + tail)[1..] == tail;
  }

  /** A split where the separator occurs: the text before it, then the
      pieces of the text after it. */
  lemma SplitCons(s: string, sep: char)
    requires sep in s
    ensures Split(s, sep) == [Before(s, sep)] + Split(After(s, sep), sep)
  {
  }

  /** Joining the pieces of a split with the separator gives back the string. */
  lemma {:induction false} JoinOfSplit(s: string, sep: char)
    ensures Join(Split(s, sep), sep) == s
    decreases |s|
  {
    if sep in s {
      var head, rest := Before(s, sep), After(s, sep);
      JoinOfSplit(rest, sep);
      SplitCons(s, sep);
      JoinCons(head, Split(rest, sep), sep);
      BeforeAfter(s, sep);
    }
  }

  /** No piece of a split holds the separator. */
  lemma {:induction false} PiecesOfSplit(s: string, sep: char)
    ensures forall k :: 0 <= k < |Split(s, sep)| ==> sep !in Split(s, sep)[k]
    decreases |s|
  {
    if sep in s {
      var head, rest := Before(s, sep), After(s, sep);
      PiecesOfSplit(rest, sep);
      SplitCons(s, sep);
      var tail := Split(rest, sep);
      var parts := [head] + tail;
      forall k | 0 <= k < |parts| ensures sep !in parts[k] {
        if k > 0 {
          assert parts[k] == tail[k - 1];
        }
      }
    }
  }

  /** Splitting and joining again gives back the string, and no piece holds
      the separator: together these fix the pieces `split` returns. */
  lemma SplitJoin(s: string, sep: char)
    ensures Join(Split(s, sep), sep) == s
    ensures forall k :: 0 <= k < |Split(s, sep)| ==> sep !in Split(s, sep)[k]
  {
    JoinOfSplit(s, sep);
    PiecesOfSplit(s, sep);
  }

  /** Piece 0 of a split is the text before the first separator. */
  lemma SplitFirst(s: string, sep: char)
    ensures Split(s, sep)[0] == Before(s, sep)
  {
  }

  /** Piece 1 of a split exists exactly when the separator occurs, and is the
      text between the first separator and the next one (or the end). */
  lemma SplitSecond(s: string, sep: char)
    ensures Element(Split(s, sep), 1).Some? <==> sep in s
    ensures sep in s ==> Element(Split(s, sep), 1) == Some(Before(After(s, sep), sep))
  {
    var i := IndexOf(s, sep);
    if i >= 0 {
      SplitFirst(s[i + 1..], sep);
    }
  }

  /** The string conversion (ECMAScript ToString) that a platform function
      applies to its argument: `undefined` becomes the text "undefined". */
  function ToDomString(v: Option<string>): (r: string)
    ensures v.Some? ==> r == v.value
    ensures v.None? ==> |r| == 9
  {
    match v
    case Some(s) => s
    case None => "undefined"
  }

  /** `s.includes(p)`: `p` occurs in `s` as a contiguous piece. */
  function Includes(s: string, p: string): (b: bool)
    decreases |s|
  {
    if p <= s then true
    else if s == [] then false
    else Includes(s[1..], p)
  }

  /** `p` occurs in `s` starting at position `i`. */
  predicate OccursAt(s: string, p: string, i: int)
  {
    0 <= i <= |s| - |p| && s[i..i + |p|] == p
  }

  /** `Includes` agrees with the reference definition: some window of `s` equals `p`. */
  lemma {:induction false} IncludesAt(s: string, p: string)
    ensures Includes(s, p) <==> exists i :: OccursAt(s, p, i)
    decreases |s|
  {
    if p <= s {
      assert OccursAt(s, p, 0);
    } else if s == [] {
    } else {
      IncludesAt(s[1..], p);
      if Includes(s[1..], p) {
        var i :| OccursAt(s[1..], p, i);
        assert s[1..][i..i + |p|] == s[i + 1..i + 1 + |p|];
        assert OccursAt(s, p, i + 1);
      }
      if exists i :: OccursAt(s, p, i) {
        var i :| OccursAt(s, p, i);
        assert i != 0;
        assert s[1..][i - 1..i - 1 + |p|] == s[i..i + |p|];
        assert OccursAt(s[1..], p, i - 1);
      }
    }
  }

  /** Lower-casing one character: the 26 ASCII capitals map to their small
      letters and every other character is left alone. */
  function LowerChar(c: char): (r: char)
    ensures 'A' <= c <= 'Z' ==> 'a' <= r <= 'z' && r as int - c as int == 32
    ensures !('A' <= c <= 'Z') ==> r == c
  {
    if 'A' <= c <= 'Z' then (c as int + 32) as char else c
  }

  function UpperChar(c: char): (r: char)
    ensures 'a' <= c <= 'z' ==> 'A' <= r <= 'Z' && c as int - r as int == 32
    ensures !('a' <= c <= 'z') ==> r == c
  {
    if 'a' <= c <= 'z' then (c as int - 32) as char else c
  }

  /** `s.toLowerCase()`, restricted to ASCII case mapping. */
  function ToLower(s: string): (r: string)
    ensures |r| == |s|
    ensures forall i :: 0 <= i < |s| ==> r[i] == LowerChar(s[i])
  {
    seq(|s|, i requires 0 <= i < |s| => LowerChar(s[i]))
  }

  function ToUpper(s: string): (r: string)
    ensures |r| == |s|
    ensures forall i :: 0 <= i < |s| ==> r[i] == UpperChar(s[i])
  {
    seq(|s|, i requires 0 <= i < |s| => UpperChar(s[i]))
  }

  /** Lower-casing is idempotent, and lower-casing the upper-cased text gives
      the same as lower-casing the text itself. */
  lemma LowerCaseFolds(s: string)
    ensures ToLower(ToLower(s)) == ToLower(s)
    ensures ToLower(ToUpper(s)) == ToLower(s)
  {
    assert forall i :: 0 <= i < |s| ==> LowerChar(UpperChar(s[i])) == LowerChar(s[i]);
  }
}
