/**
  A model of the static helper class `Util` of Unity-Utilities: its
  whitespace test, wrap-around counters, Photon client-state names, array
  rendering, character removal, first-occurrence replacement, hex-colour
  shorthand expansion, `Swap` and the six boolean gates.

  C# strings are `string` (a sequence of characters); a C# reference that
  may be null is an `Option`. A `ref` parameter is an in-parameter plus an
  out-parameter carrying its new value.
*/
module Util {

  /** A C# reference that may be null. */
  datatype Option<T> = None | Some(value: T)

  // ---------------------------------------------------------------------
  // Whitespace
  // ---------------------------------------------------------------------

  /** The characters for which .NET's `char.IsWhiteSpace` holds: the Unicode
      space, line and paragraph separators, and the control characters
      U+0009..U+000D and U+0085. */
  const WhiteSpaceChars: set<char> := {
    '\t', '\n', '\U{B}', '\U{C}', '\r', ' ', '\U{85}', '\U{A0}', '\U{1680}',
    '\U{2000}', '\U{2001}', '\U{2002}', '\U{2003}', '\U{2004}', '\U{2005}',
    '\U{2006}', '\U{2007}', '\U{2008}', '\U{2009}', '\U{200A}',
    '\U{2028}', '\U{2029}', '\U{202F}', '\U{205F}', '\U{3000}'
  }

  /** `char.IsWhiteSpace`: the two control ranges and the run of typographic
      spaces are whitespace, and nothing above U+3000 is. */
  predicate IsWhiteSpace(c: char): (r: bool)
    ensures '\t' <= c <= '\r' ==> r
    ensures '\U{2000}' <= c <= '\U{200A}' ==> r
    ensures c == ' ' || c == '\U{A0}' || c == '\U{3000}' ==> r
    ensures r ==> c <= '\U{3000}'
  {
    c in WhiteSpaceChars
  }

  ghost predicate AllWhiteSpace(s: string) {
    forall i :: 0 <= i < |s| ==> IsWhiteSpace(s[i])
  }

  /** True for null and for a string made only of whitespace; the scan stops
      at the first other character. */
  method StrIsNullOrWhiteSpace(s: Option<string>) returns (r: bool)
    ensures r <==> (s.None? || AllWhiteSpace(s.value))
    ensures s == Some("") ==> r
    ensures s.Some? && (exists i :: 0 <= i < |s.value| && !IsWhiteSpace(s.value[i])) ==> !r
  {
    if s.None? {
      return true;
    }
    var str := s.value;
    for i := 0 to |str|
      invariant forall j :: 0 <= j < i ==> IsWhiteSpace(str[j])
    {
      if !IsWhiteSpace(str[i]) {
        return false;
      }
    }
    return true;
  }

  // ---------------------------------------------------------------------
  // Wrap-around counters
  // ---------------------------------------------------------------------

  /** C#'s `int`. */
  newtype int32 = x: int | -0x8000_0000 <= x < 0x8000_0000

  const Int32Min: int := -0x8000_0000
  const Int32Max: int := 0x7fff_ffff

  /** C#'s unchecked `int` arithmetic: the 32-bit two's-complement value
      congruent to `x` modulo 2^32. */
  function Wrap32(x: int): (r: int32)
    ensures Int32Min <= x <= Int32Max ==> r as int == x
    ensures x == Int32Max + 1 ==> r as int == Int32Min
    ensures x == Int32Min - 1 ==> r as int == Int32Max
    ensures (x - r as int) % 0x1_0000_0000 == 0
  {
    ((x - Int32Min) % 0x1_0000_0000 + Int32Min) as int32
  }

  /** The next value in the cycle 0, 1, ..., modulus - 1, 0, ... */
  function CyclicSucc(v: int, modulus: int): (r: int)
    requires 0 < modulus
    ensures 0 <= r < modulus
  {
    (v + 1) % modulus
  }

  /** The previous value in the cycle 0, 1, ..., modulus - 1, 0, ... */
  function CyclicPred(v: int, modulus: int): (r: int)
    requires 0 < modulus
    ensures 0 <= r < modulus
  {
    (v - 1) % modulus
  }

  /** On [0, modulus) the successor is the next value, or 0 after the last. */
  lemma CyclicSuccInRange(v: int, modulus: int)
    requires 0 <= v < modulus
    ensures CyclicSucc(v, modulus) == if v + 1 < modulus then v + 1 else 0
  {
  }

  /** On [0, modulus) the predecessor is the previous value, or
      modulus - 1 before 0. */
  lemma CyclicPredInRange(v: int, modulus: int)
    requires 0 <= v < modulus
    ensures CyclicPred(v, modulus) == if 0 < v then v - 1 else modulus - 1
  {
  }

  /** `ModInc(ref value, modulus)`: steps `value` up by one, to 0 once it
      reaches `modulus`. */
  method ModInc(value: int32, modulus: int32) returns (value': int32)
    ensures 0 <= value < modulus ==> 0 <= value' < modulus
    ensures 0 <= value < modulus ==> value' as int == CyclicSucc(value as int, modulus as int)
    ensures 0 < modulus && value as int == modulus as int - 1 ==> value' == 0
    ensures value as int < Int32Max && value as int + 1 < modulus as int ==> value' as int == value as int + 1
    ensures value as int < Int32Max && modulus as int <= value as int + 1 ==> value' == 0
    // the increment overflows and wraps to int.MinValue
    ensures value as int == Int32Max ==> value' as int == if modulus as int <= Int32Min then 0 else Int32Min
  {
    if 0 <= value < modulus {
      CyclicSuccInRange(value as int, modulus as int);
    }
    value' := Wrap32(value as int + 1);
    if value' >= modulus {
      value' := 0;
    }
  }

  /** `ModDec(ref value, modulus)`: steps `value` down by one, to
      `modulus - 1` once it drops below 0. */
  method ModDec(value: int32, modulus: int32) returns (value': int32)
    ensures 0 <= value < modulus ==> 0 <= value' < modulus
    ensures 0 <= value < modulus ==> value' as int == CyclicPred(value as int, modulus as int)
    ensures 0 < modulus && value == 0 ==> value' as int == modulus as int - 1
    ensures 0 < value ==> value' as int == value as int - 1
    ensures Int32Min < value as int <= 0 ==> value' == Wrap32(modulus as int - 1)
    // the decrement overflows and wraps to int.MaxValue, which is not below 0
    ensures value as int == Int32Min ==> value' as int == Int32Max
  {
    if 0 <= value < modulus {
      CyclicPredInRange(value as int, modulus as int);
    }
    value' := Wrap32(value as int - 1);
    if value' < 0 {
      value' := Wrap32(modulus as int - 1);
    }
  }

  /** Stepping up and stepping down undo each other on [0, modulus). */
  lemma {:induction false} CyclicSuccPredInverse(v: int, modulus: int)
    requires 0 <= v < modulus
    ensures CyclicPred(CyclicSucc(v, modulus), modulus) == v
    ensures CyclicSucc(CyclicPred(v, modulus), modulus) == v
  {
    CyclicSuccInRange(v, modulus);
    CyclicPredInRange(v, modulus);
    CyclicPredInRange(CyclicSucc(v, modulus), modulus);
    CyclicSuccInRange(CyclicPred(v, modulus), modulus);
  }

  /** The value reached after `k` increments starting from `v`. */
  ghost function SuccIterated(v: int, modulus: int, k: nat): int
    requires 0 < modulus
  {
    if k == 0 then v else CyclicSucc(SuccIterated(v, modulus, k - 1), modulus)
  }

  /** Repeated increments walk the cycle: `k` of them from a value in range
      land on `(v + k) % modulus`, so `modulus` of them come back to `v`. */
  lemma {:induction false} SuccIteratedShifts(v: int, modulus: int, k: nat)
    requires 0 <= v < modulus
    ensures SuccIterated(v, modulus, k) == (v + k) % modulus
    ensures k == modulus ==> SuccIterated(v, modulus, k) == v
  {
    if k == 0 {
      ModUnique(v, modulus, 0, v);
    } else {
      SuccIteratedShifts(v, modulus, k - 1);
      ModSuccessor(v + k - 1, modulus);
    }
    if k == modulus {
      ModUnique(v + modulus, modulus, 1, v);
    }
  }

  /** Taking the remainder before or after adding one gives the same. */
  lemma ModSuccessor(a: int, m: int)
    requires 0 < m
    ensures (a % m + 1) % m == (a + 1) % m
  {
    var q, r := a / m, a % m;
    if r + 1 < m {
      ModUnique(a + 1, m, q, r + 1);
      ModUnique(r + 1, m, 0, r + 1);
    } else {
      ModUnique(a + 1, m, q + 1, 0);
      ModUnique(r + 1, m, 1, 0);
    }
  }

  /** The remainder is determined by any quotient-remainder decomposition. */
  lemma ModUnique(a: int, m: int, q: int, r: int)
    requires 0 < m && 0 <= r < m && a == m * q + r
    ensures a % m == r
  {
    var q', r' := a / m, a % m;
    assert m * q + r == m * q' + r';
    if q < q' {
      assert m * (q' - q) == r - r';
      MulAtLeast(m, q' - q);
    } else if q > q' {
      assert m * (q - q') == r' - r;
      MulAtLeast(m, q - q');
    }
  }

  lemma MulAtLeast(m: int, d: int)
    requires 0 < m && 1 <= d
    ensures m * d >= m
  {
  }

  // ---------------------------------------------------------------------
  // Photon client-state names
  // ---------------------------------------------------------------------

  /** The name of a Photon client state, or "???" outside 0..20. */
  function ClientStateToString(state: int): (name: string)
    ensures (0 <= state <= 20) <==> name != "???"
    ensures name != ""
  {
    match state
    case 0 => "Uninitialized"
    case 1 => "PeerCreated"
    case 2 => "Queued"
    case 3 => "Authenticated"
    case 4 => "JoinedLobby"
    case 5 => "DisconnectingFromMasterserver"
    case 6 => "ConnectingToGameserver"
    case 7 => "ConnectedToGameserver"
    case 8 => "Joining"
    case 9 => "Joined"
    case 10 => "Leaving"
    case 11 => "DisconnectingFromGameserver"
    case 12 => "ConnectingToMasterserver"
    case 13 => "QueuedComingFromGameserver"
    case 14 => "Disconnecting"
    case 15 => "Disconnected"
    case 16 => "ConnectedToMaster"
    case 17 => "ConnectingToNameServer"
    case 18 => "ConnectedToNameServer"
    case 19 => "DisconnectingFromNameServer"
    case 20 => "Authenticating"
    case _ => "???"
  }

  /** Reads a state back from its name; -1 for any other string. */
  ghost function ClientStateOfName(name: string): int {
    if name == "Uninitialized" then 0
    else if name == "PeerCreated" then 1
    else if name == "Queued" then 2
    else if name == "Authenticated" then 3
    else if name == "JoinedLobby" then 4
    else if name == "DisconnectingFromMasterserver" then 5
    else if name == "ConnectingToGameserver" then 6
    else if name == "ConnectedToGameserver" then 7
    else if name == "Joining" then 8
    else if name == "Joined" then 9
    else if name == "Leaving" then 10
    else if name == "DisconnectingFromGameserver" then 11
    else if name == "ConnectingToMasterserver" then 12
    else if name == "QueuedComingFromGameserver" then 13
    else if name == "Disconnecting" then 14
    else if name == "Disconnected" then 15
    else if name == "ConnectedToMaster" then 16
    else if name == "ConnectingToNameServer" then 17
    else if name == "ConnectedToNameServer" then 18
    else if name == "DisconnectingFromNameServer" then 19
    else if name == "Authenticating" then 20
    else -1
  }

  /** Each state's name reads back as that state. */
  lemma {:induction false} ClientStateNameReadsBack(state: int)
    requires 0 <= state <= 20
    ensures ClientStateOfName(ClientStateToString(state)) == state
  {
    var name := ClientStateToString(state);
    if state == 0 {
      assert name == "Uninitialized";
    } else if state == 1 {
      assert name == "PeerCreated";
    } else if state == 2 {
      assert name == "Queued";
    } else if state == 3 {
      assert name == "Authenticated";
    } else if state == 4 {
      assert name == "JoinedLobby";
    } else if state == 5 {
      assert name == "DisconnectingFromMasterserver";
    } else if state == 6 {
      assert name == "ConnectingToGameserver";
    } else if state == 7 {
      assert name == "ConnectedToGameserver";
    } else if state == 8 {
      assert name == "Joining";
    } else if state == 9 {
      assert name == "Joined";
    } else if state == 10 {
      assert name == "Leaving";
    } else if state == 11 {
      assert name == "DisconnectingFromGameserver";
    } else if state == 12 {
      assert name == "ConnectingToMasterserver";
    } else if state == 13 {
      assert name == "QueuedComingFromGameserver";
    } else if state == 14 {
      assert name == "Disconnecting";
    } else if state == 15 {
      assert name == "Disconnected";
    } else if state == 16 {
      assert name == "ConnectedToMaster";
    } else if state == 17 {
      assert name == "ConnectingToNameServer";
    } else if state == 18 {
      assert name == "ConnectedToNameServer";
    } else if state == 19 {
      assert name == "DisconnectingFromNameServer";
    } else if state == 20 {
      assert name == "Authenticating";
    }
  }

  /** The 21 state names are pairwise distinct. */
  lemma ClientStateNamesDistinct(a: int, b: int)
    requires 0 <= a <= 20 && 0 <= b <= 20 && a != b
    ensures ClientStateToString(a) != ClientStateToString(b)
  {
    ClientStateNameReadsBack(a);
    ClientStateNameReadsBack(b);
  }

  // ---------------------------------------------------------------------
  // Joining strings and rendering arrays
  // ---------------------------------------------------------------------

  /** `string.Join(sep, items)`: the items with `sep` between neighbours,
      none before the first and none after the last. */
  function Join(items: seq<string>, sep: string): (r: string)
    ensures items == [] ==> r == ""
    ensures |items| > 0 ==> |items[0]| <= |r| && r[..|items[0]|] == items[0]
  {
    if |items| == 0 then ""
    else if |items| == 1 then items[0]
    else items[0] + sep + Join(items[1..], sep)
  }

  function TotalLength(items: seq<string>): nat {
    if |items| == 0 then 0 else |items[0]| + TotalLength(items[1..])
  }

  /** Appending an item to a non-empty list adds one separator and the item
      at the end. */
  lemma {:induction false} JoinSnoc(items: seq<string>, x: string, sep: string)
    requires |items| > 0
    ensures Join(items + [x], sep) == Join(items, sep) + sep + x
  {
    if |items| > 1 {
      assert (items + [x])[1..] == items[1..] + [x];
      JoinSnoc(items[1..], x, sep);
    }
  }

  /** The joined text is the items plus one separator per gap. */
  lemma {:induction false} JoinLength(items: seq<string>, sep: string)
    requires |items| > 0
    ensures |Join(items, sep)| == TotalLength(items) + (|items| - 1) * |sep|
  {
    if |items| > 1 {
      JoinLength(items[1..], sep);
    }
  }

  /** `FullArrayToString`: "null" for a null array, "[ ]" for an empty one,
      otherwise the rendered elements separated by ", " inside brackets. */
  method FullArrayToString(arr: Option<seq<string>>) returns (r: string)
    ensures arr.None? ==> r == "null"
    ensures arr == Some([]) ==> r == "[ ]"
    ensures arr.Some? && |arr.value| > 0 ==> r == "[" + Join(arr.value, ", ") + "]"
  {
    if arr.None? {
      return "null";
    }
    var items := arr.value;
    r := "[";
    if |items| == 0 {
      r := r + " ";
    } else {
      var i := 0;
      while i < |items| - 1
        invariant 0 <= i <= |items| - 1
        invariant i == 0 ==> r == "["
        invariant i > 0 ==> r == "[" + Join(items[..i], ", ") + ", "
      {
        if i > 0 {
          JoinSnoc(items[..i], items[i], ", ");
        }
        assert items[..i + 1] == items[..i] + [items[i]];
        r := r + items[i] + ", ";
        i := i + 1;
      }
      if i > 0 {
        JoinSnoc(items[..i], items[i], ", ");
      }
      assert items[..i] + [items[i]] == items[..i + 1] == items;
      r := r + items[i];
    }
    r := r + "]";
  }

  // ---------------------------------------------------------------------
  // Removing characters
  // ---------------------------------------------------------------------

  /** The number of characters of `s` that belong to `chars`. */
  function CountIn(s: string, chars: set<char>): nat {
    if s == [] then 0 else (if s[0] in chars then 1 else 0) + CountIn(s[1..], chars)
  }

  /** `s.Split(separators)`: the pieces between separators, empty pieces
      included, so one more piece than there are separators. */
  function Split(s: string, separators: set<char>): (pieces: seq<string>)
    ensures |pieces| == CountIn(s, separators) + 1
    ensures forall i, j :: 0 <= i < |pieces| && 0 <= j < |pieces[i]| ==> pieces[i][j] !in separators
  {
    if s == [] then [""]
    else
      var rest := Split(s[1..], separators);
      if s[0] in separators then [""] + rest
      else [[s[0]] + rest[0]] + rest[1..]
  }

  /** `s` without the characters in `chars`, the rest kept in order. */
  function Filter(s: string, chars: set<char>): (r: string)
    ensures |r| == |s| - CountIn(s, chars)
    ensures forall i :: 0 <= i < |r| ==> r[i] !in chars
  {
    if s == [] then "" else (if s[0] in chars then "" else [s[0]]) + Filter(s[1..], chars)
  }

  /** Joining the pieces of a split on one character with that character
      gives the string back, so the pieces are exactly the runs between
      separators. */
  lemma {:induction false} JoinSplitSingle(s: string, c: char)
    ensures Join(Split(s, {c}), [c]) == s
  {
    if s != [] {
      var rest := Split(s[1..], {c});
      JoinSplitSingle(s[1..], c);
      if s[0] == c {
        assert ([""] + rest)[1..] == rest;
      } else {
        var pieces := [[s[0]] + rest[0]] + rest[1..];
        assert pieces[1..] == rest[1..];
        if |rest| > 1 {
          assert Join(rest, [c]) == rest[0] + [c] + Join(rest[1..], [c]);
        }
      }
      assert s == [s[0]] + s[1..];
    }
  }

  /** Joining the pieces of a split with nothing in between deletes the
      separators. */
  lemma {:induction false} JoinSplitIsFilter(s: string, separators: set<char>)
    ensures Join(Split(s, separators), "") == Filter(s, separators)
  {
    if s != [] {
      var rest := Split(s[1..], separators);
      JoinSplitIsFilter(s[1..], separators);
      if s[0] in separators {
        assert Join([""] + rest, "") == Join(rest, "") by {
          assert ([""] + rest)[1..] == rest;
        }
      } else {
        var pieces := [[s[0]] + rest[0]] + rest[1..];
        assert pieces[1..] == rest[1..];
        if |rest| > 1 {
          assert Join(rest, "") == rest[0] + Join(rest[1..], "");
        }
      }
    }
  }

  /** Deleting keeps exactly the other characters: each of them occurs as
      often as before. */
  lemma {:induction false} FilterKeepsOthers(s: string, chars: set<char>, x: char)
    ensures multiset(Filter(s, chars))[x] == if x in chars then 0 else multiset(s)[x]
  {
    if s != [] {
      FilterKeepsOthers(s[1..], chars, x);
      var head := if s[0] in chars then "" else [s[0]];
      assert Filter(s, chars) == head + Filter(s[1..], chars);
      assert multiset(Filter(s, chars)) == multiset(head) + multiset(Filter(s[1..], chars));
      assert multiset(s) == multiset([s[0]]) + multiset(s[1..]) by {
        assert s == [s[0]] + s[1..];
      }
    }
  }

  /** Deleting is applied character by character, so it keeps the order:
      the deletion of a concatenation is the concatenation of the deletions. */
  lemma {:induction false} FilterAppend(a: string, b: string, chars: set<char>)
    ensures Filter(a + b, chars) == Filter(a, chars) + Filter(b, chars)
  {
    if a == [] {
      assert a + b == b;
    } else {
      assert (a + b)[0] == a[0];
      assert (a + b)[1..] == a[1..] + b;
      FilterAppend(a[1..], b, chars);
    }
  }

  /** A string with nothing to delete is returned unchanged. */
  lemma {:induction false} FilterNothing(s: string, chars: set<char>)
    requires forall i :: 0 <= i < |s| ==> s[i] !in chars
    ensures Filter(s, chars) == s
  {
    if s != [] {
      FilterNothing(s[1..], chars);
    }
  }

  lemma {:induction false} CountInSingleton(s: string, c: char)
    ensures CountIn(s, {c}) == multiset(s)[c]
  {
    if s != [] {
      CountInSingleton(s[1..], c);
      assert s == [s[0]] + s[1..];
    }
  }

  /** `RemoveFromString(str, char)`: `str` without any `charToRemove`,
      everything else kept in order. */
  function RemoveCharFromString(str: string, charToRemove: char): (r: string)
    ensures r == Filter(str, {charToRemove})
    ensures charToRemove !in r
    ensures |r| == |str| - multiset(str)[charToRemove]
    ensures forall x :: x != charToRemove ==> multiset(r)[x] == multiset(str)[x]
  {
    JoinSplitIsFilter(str, {charToRemove});
    CountInSingleton(str, charToRemove);
    forall x | x != charToRemove
      ensures multiset(Filter(str, {charToRemove}))[x] == multiset(str)[x]
    {
      FilterKeepsOthers(str, {charToRemove}, x);
    }
    Join(Split(str, {charToRemove}), "")
  }

  /** Removing a character a second time changes nothing. */
  lemma RemoveCharIdempotent(str: string, c: char)
    ensures RemoveCharFromString(RemoveCharFromString(str, c), c) == RemoveCharFromString(str, c)
  {
    var once := RemoveCharFromString(str, c);
    FilterNothing(once, {c});
  }

  /** The separators `str.Split(chars.ToCharArray())` splits on: the given
      characters, or whitespace when there are none. */
  function SplitSeparators(chars: string): (separators: set<char>)
    ensures chars == "" ==> separators == WhiteSpaceChars
    ensures chars != "" ==> forall c :: c in separators <==> c in chars
  {
    if chars == "" then WhiteSpaceChars else set c | c in chars
  }

  /** `RemoveFromString(str, string)` as written: deletes every character
      that occurs in `charsToRemove` (not the substring); with an empty
      `charsToRemove` it deletes whitespace. */
  function RemoveCharsFromString(str: string, charsToRemove: string): (r: string)
    ensures charsToRemove != "" ==> r == Filter(str, set c | c in charsToRemove)
    ensures forall i :: 0 <= i < |r| ==> r[i] !in charsToRemove
    ensures charsToRemove == "" ==> r == Filter(str, WhiteSpaceChars)
  {
    JoinSplitIsFilter(str, SplitSeparators(charsToRemove));
    Join(Split(str, SplitSeparators(charsToRemove)), "")
  }

  /** `RemoveFromString(str, string)` as written, except that an empty
      `charsToRemove` removes nothing. */
  function RemoveCharsFromStringCorrected(str: string, charsToRemove: string): (r: string)
    ensures r == Filter(str, set c | c in charsToRemove)
    ensures forall x :: x !in charsToRemove ==> multiset(r)[x] == multiset(str)[x]
    ensures charsToRemove == "" ==> r == str
  {
    var chars := set c | c in charsToRemove;
    forall x | x !in charsToRemove
      ensures multiset(Filter(str, chars))[x] == multiset(str)[x]
    {
      FilterKeepsOthers(str, chars, x);
    }
    if charsToRemove == "" then
      FilterNothing(str, chars);
      Filter(str, chars)
    else
      Filter(str, chars)
  }

  /** With nothing to remove the code as written still strips the blank. */
  lemma RemoveNothingStripsWhiteSpace()
    ensures RemoveCharsFromString("a b", "") == "ab"
    ensures RemoveCharsFromStringCorrected("a b", "") == "a b"
  {
    assert ' ' in WhiteSpaceChars;
    assert 'a' !in WhiteSpaceChars;
    assert 'b' !in WhiteSpaceChars;
    assert "a b"[1..] == " b";
    assert " b"[1..] == "b";
    assert "b"[1..] == "";
    assert Filter("a b", WhiteSpaceChars) == "ab";
  }

  // ---------------------------------------------------------------------
  // Replacing the first occurrence
  // ---------------------------------------------------------------------

  /** `pattern` occurs in `s` starting at index `k`. */
  predicate OccursAt(s: string, pattern: string, k: int) {
    0 <= k && k + |pattern| <= |s| && s[k..k + |pattern|] == pattern
  }

  /** `k` is the leftmost index at which `pattern` occurs in `s`. */
  predicate IsFirstOccurrence(s: string, pattern: string, k: int) {
    OccursAt(s, pattern, k) && forall j :: 0 <= j < k ==> !OccursAt(s, pattern, j)
  }

  /** Ordinal `s.IndexOf(pattern, from)`: the leftmost index from `from` on
      at which `pattern` occurs, or -1. */
  function IndexOfFrom(s: string, pattern: string, from: nat): (k: int)
    requires from <= |s|
    ensures k == -1 || (from <= k && OccursAt(s, pattern, k))
    ensures forall j :: from <= j && (k == -1 || j < k) ==> !OccursAt(s, pattern, j)
    decreases |s| - from
  {
    if from + |pattern| > |s| then -1
    else if s[from..from + |pattern|] == pattern then from
    else IndexOfFrom(s, pattern, from + 1)
  }

  /** Ordinal `s.IndexOf(pattern)`; the empty pattern is found at 0. */
  function IndexOf(s: string, pattern: string): (k: int)
    ensures k == -1 <==> forall j :: !OccursAt(s, pattern, j)
    ensures k != -1 ==> IsFirstOccurrence(s, pattern, k)
    ensures pattern == "" ==> k == 0
  {
    IndexOfFrom(s, pattern, 0)
  }

  /** `ReplaceFirstInString`: the leftmost occurrence of `oldValue`, and no
      other, becomes `newValue`; without an occurrence `str` is returned. */
  function ReplaceFirstInString(str: string, oldValue: string, newValue: string): (r: string)
    ensures (forall j :: !OccursAt(str, oldValue, j)) ==> r == str
    ensures forall k :: IsFirstOccurrence(str, oldValue, k) ==>
      && r == str[..k] + newValue + str[k + |oldValue|..]
      && |r| == |str| - |oldValue| + |newValue|
      && r[k + |newValue|..] == str[k + |oldValue|..]
    ensures oldValue == "" ==> r == newValue + str
  {
    var idx := IndexOf(str, oldValue);
    if idx == -1 then str
    else str[..idx] + newValue + str[idx + |oldValue|..]
  }

  /** Replacing back undoes a replacement, provided the inserted text is
      where its own leftmost occurrence lies. */
  lemma ReplaceFirstUndo(str: string, oldValue: string, newValue: string, k: int)
    requires IsFirstOccurrence(str, oldValue, k)
    requires IsFirstOccurrence(ReplaceFirstInString(str, oldValue, newValue), newValue, k)
    ensures ReplaceFirstInString(ReplaceFirstInString(str, oldValue, newValue), newValue, oldValue) == str
  {
    var r := ReplaceFirstInString(str, oldValue, newValue);
    assert r[..k] == str[..k];
    assert r[k + |newValue|..] == str[k + |oldValue|..];
    assert str == str[..k] + oldValue + str[k + |oldValue|..];
  }

  // ---------------------------------------------------------------------
  // Hex colour shorthand
  // ---------------------------------------------------------------------

  /** Every character written twice: "abc" becomes "aabbcc". */
  function Doubled(s: string): (r: string)
    ensures |r| == 2 * |s|
  {
    if s == [] then [] else [s[0], s[0]] + Doubled(s[1..])
  }

  /** Every other character, starting with the first: undoes `Doubled`. */
  function Halved(s: string): string {
    if |s| < 2 then [] else [s[0]] + Halved(s[2..])
  }

  /** Character `i` of the input sits at positions 2i and 2i+1 of the
      doubled string. */
  lemma {:induction false} DoubledAt(s: string, i: nat)
    requires i < |s|
    ensures Doubled(s)[2 * i] == s[i] && Doubled(s)[2 * i + 1] == s[i]
  {
    if i > 0 {
      DoubledAt(s[1..], i - 1);
    }
  }

  lemma {:induction false} DoubledSnoc(s: string, c: char)
    ensures Doubled(s + [c]) == Doubled(s) + [c, c]
  {
    if s != [] {
      assert (s + [c])[1..] == s[1..] + [c];
      DoubledSnoc(s[1..], c);
    }
  }

  /** Expanding a shorthand loses nothing: halving gives it back. */
  lemma {:induction false} HalvedDoubled(s: string)
    ensures Halved(Doubled(s)) == s
  {
    if s != [] {
      HalvedDoubled(s[1..]);
      assert Doubled(s)[2..] == Doubled(s[1..]);
    }
  }

  /** A string `HexExpand` expands: three characters, or four starting with
      '#', other than "red". The characters are not checked to be hex digits. */
  predicate IsShorthand(hex: string) {
    hex != "red" && |hex| > 0 && (if hex[0] == '#' then |hex| == 4 else |hex| == 3)
  }

  /** `HexExpand`: doubles each character of a shorthand colour, keeping a
      leading '#'; "", "red" and strings of the wrong length pass through. */
  method HexExpand(hexString: string) returns (r: string)
    ensures !IsShorthand(hexString) ==> r == hexString
    ensures hexString == "" || hexString == "red" ==> r == hexString
    ensures |hexString| != 3 && |hexString| != 4 ==> r == hexString
    ensures IsShorthand(hexString) && hexString[0] != '#' ==> |r| == 6 && r == Doubled(hexString)
    ensures IsShorthand(hexString) && hexString[0] == '#' ==>
      |r| == 7 && r == "#" + Doubled(hexString[1..])
  {
    if hexString == "" || hexString == "red" {
      return hexString;
    }
    var includesPound := hexString[0] == '#';
    if (includesPound && |hexString| != 4) || (!includesPound && |hexString| != 3) {
      return hexString;
    }
    var prefix := if includesPound then "#" else "";
    var start := if includesPound then 1 else 0;
    r := prefix;
    var i := start;
    while i < |hexString|
      invariant start <= i <= |hexString|
      invariant r == prefix + Doubled(hexString[start..i])
    {
      DoubledSnoc(hexString[start..i], hexString[i]);
      assert hexString[start..i + 1] == hexString[start..i] + [hexString[i]];
      r := r + [hexString[i]];
      r := r + [hexString[i]];
      i := i + 1;
    }
    assert hexString[start..i] == hexString[start..];
    assert hexString[0..] == hexString;
  }

  // ---------------------------------------------------------------------
  // Swap and boolean gates
  // ---------------------------------------------------------------------

  /** `Swap(ref a, ref b)`: each location ends up holding the other's value. */
  method Swap<T>(a: T, b: T) returns (a': T, b': T)
    ensures a' == b && b' == a
  {
    var tmp := a;
    a' := b;
    b' := tmp;
  }

  /** True exactly when both inputs are. */
  function And(a: bool, b: bool): (r: bool)
    ensures r ==> a && b
    ensures a && b ==> r
  {
    a && b
  }

  function Nand(a: bool, b: bool): (r: bool)
    ensures r == !And(a, b)
  {
    !(a && b)
  }

  /** True exactly when at least one input is. */
  function Or(a: bool, b: bool): (r: bool)
    ensures a ==> r
    ensures b ==> r
    ensures r ==> a || b
  {
    a || b
  }

  function Nor(a: bool, b: bool): (r: bool)
    ensures r == !Or(a, b)
  {
    !(a || b)
  }

  /** True exactly when the inputs differ. */
  function Xor(a: bool, b: bool): (r: bool)
    ensures r <==> a != b
  {
    (a && !b) || (!a && b)
  }

  /** True exactly when the inputs agree. */
  function Xnor(a: bool, b: bool): (r: bool)
    ensures r == !Xor(a, b)
    ensures r <==> a == b
  {
    (a && b) || (!a && !b)
  }

  /** The truth tables of `And` and `Or`, and the laws tying the gates
      together. */
  lemma GateLaws(a: bool, b: bool)
    ensures And(a, b) <==> a && b
    ensures Or(a, b) <==> a || b
    ensures And(a, b) == And(b, a) && Or(a, b) == Or(b, a)
    ensures And(a, true) == a && Or(a, false) == a
    ensures Nand(a, b) == Or(!a, !b) && Nor(a, b) == And(!a, !b)
    ensures Xor(a, b) == And(Or(a, b), Nand(a, b))
  {
  }
}
