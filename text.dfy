/** The string library calls the chat widget relies on: `String.prototype.trim`,
    `toLowerCase` (restricted to ASCII), `includes` and `Array.prototype.join`.
    Strings are sequences of Unicode scalar values, so a JavaScript string
    holding an unpaired surrogate has no counterpart here. */
module Text {

  /** The characters ECMAScript's `trim` removes: WhiteSpace (tab, vertical tab,
      form feed, space, no-break space, byte order mark and the other Zs
      characters) and LineTerminator (line feed, carriage return, line and
      paragraph separators). */
  predicate IsWhitespace(c: char) {
    c in WhitespaceChars || '\U{2000}' <= c <= '\U{200A}'
  }

  const WhitespaceChars: set<char> := {
    '\t', '\n', '\U{B}', '\U{C}', '\r', ' ', '\U{A0}', '\U{1680}',
    '\U{2028}', '\U{2029}', '\U{202F}', '\U{205F}', '\U{3000}', '\U{FEFF}'
  }

  predicate AllWhitespace(s: string) {
    forall i :: 0 <= i < |s| ==> IsWhitespace(s[i])
  }

  /** `s.trim()`: whitespace is dropped from both ends until both ends are
      something else or nothing is left. */
  function Trim(s: string): (r: string)
    ensures |r| <= |s|
  {
    if s == [] then []
    else if IsWhitespace(s[0]) then Trim(s[1..])
    else if IsWhitespace(s[|s| - 1]) then Trim(s[..|s| - 1])
    else s
  }

  /** What is left is the slice `s[i..j]`: only whitespace was cut off on
      either side of it, and it neither starts nor ends with whitespace. */
  lemma {:induction false} TrimSlice(s: string) returns (i: nat, j: nat)
    ensures i <= j <= |s| && Trim(s) == s[i..j]
    ensures forall k :: 0 <= k < i ==> IsWhitespace(s[k])
    ensures forall k :: j <= k < |s| ==> IsWhitespace(s[k])
    ensures i < j ==> !IsWhitespace(s[i]) && !IsWhitespace(s[j - 1])
  {
    if s == [] {
      i, j := 0, 0;
    } else if IsWhitespace(s[0]) {
      var i', j' := TrimSlice(s[1..]);
      i, j := i' + 1, j' + 1;
      TrimFront(s, s[1..], i', j');
      assert i < j ==> s[i] == s[1..][i'] && s[j - 1] == s[1..][j' - 1];
    } else if IsWhitespace(s[|s| - 1]) {
      i, j := TrimSlice(s[..|s| - 1]);
      TrimBack(s, s[..|s| - 1], i, j);
      assert i < j ==> s[i] == s[..|s| - 1][i] && s[j - 1] == s[..|s| - 1][j - 1];
    } else {
      i, j := 0, |s|;
    }
  }

  lemma TrimFront(s: string, t: string, i: nat, j: nat)
    requires s != [] && IsWhitespace(s[0]) && t == s[1..] && i <= j <= |t|
    requires Trim(t) == t[i..j]
    requires forall k :: 0 <= k < i ==> IsWhitespace(t[k])
    requires forall k :: j <= k < |t| ==> IsWhitespace(t[k])
    ensures Trim(s) == s[i + 1..j + 1]
    ensures forall k :: 0 <= k < i + 1 ==> IsWhitespace(s[k])
    ensures forall k :: j + 1 <= k < |s| ==> IsWhitespace(s[k])
  {
    assert Trim(s) == Trim(t);
    assert t[i..j] == s[i + 1..j + 1];
    forall k | 0 < k < |s| ensures s[k] == t[k - 1] {
    }
  }

  lemma TrimBack(s: string, t: string, i: nat, j: nat)
    requires s != [] && !IsWhitespace(s[0]) && IsWhitespace(s[|s| - 1])
    requires t == s[..|s| - 1] && i <= j <= |t|
    requires Trim(t) == t[i..j]
    requires forall k :: 0 <= k < i ==> IsWhitespace(t[k])
    requires forall k :: j <= k < |t| ==> IsWhitespace(t[k])
    ensures Trim(s) == s[i..j]
    ensures forall k :: 0 <= k < i ==> IsWhitespace(s[k])
    ensures forall k :: j <= k < |s| ==> IsWhitespace(s[k])
  {
    assert Trim(s) == Trim(t);
    assert t[i..j] == s[i..j];
    forall k | 0 <= k < |t| ensures s[k] == t[k] {
    }
  }

  /** Nothing is left exactly when `s` is all whitespace. */
  lemma TrimEmpty(s: string)
    ensures Trim(s) == [] <==> AllWhitespace(s)
  {
    var i, j := TrimSlice(s);
    if i < j {
      assert !IsWhitespace(s[i]);
    }
  }

  /** Trimming is idempotent: a trimmed string has nothing left to trim. */
  lemma TrimIdempotent(s: string)
    ensures Trim(Trim(s)) == Trim(s)
  {
    var i, j := TrimSlice(s);
    var r := Trim(s);
    if r != [] {
      assert r[0] == s[i] && r[|r| - 1] == s[j - 1];
    }
  }

  /** ASCII lowercasing, the only part of `toLowerCase` this model keeps. */
  function LowerChar(c: char): (r: char)
    ensures 'A' <= c <= 'Z' ==> 'a' <= r <= 'z'
    ensures !('A' <= c <= 'Z') ==> r == c
  {
    if 'A' <= c <= 'Z' then (c as int + 32) as char else c
  }

  function ToLowerAscii(s: string): (r: string)
    ensures |r| == |s|
    ensures forall i :: 0 <= i < |s| ==> r[i] == LowerChar(s[i])
  {
    if s == [] then [] else [LowerChar(s[0])] + ToLowerAscii(s[1..])
  }

  /** Lowercasing twice is lowercasing once. */
  lemma ToLowerIdempotent(s: string)
    ensures ToLowerAscii(ToLowerAscii(s)) == ToLowerAscii(s)
  {
  }

  /** `hay.includes(needle)`, as a scan from the left. */
  function Includes(hay: string, needle: string): (b: bool)
    ensures needle == [] ==> b
    ensures b ==> |needle| <= |hay|
    decreases |hay|
  {
    if |needle| > |hay| then false
    else if hay[..|needle|] == needle then true
    else Includes(hay[1..], needle)
  }

  /** The defining property of `includes`: `needle` occurs at some offset. */
  ghost predicate OccursAt(hay: string, needle: string, i: int) {
    0 <= i && i + |needle| <= |hay| && hay[i..i + |needle|] == needle
  }

  /** The scan finds the needle exactly when it occurs somewhere. */
  lemma {:induction false} IncludesIff(hay: string, needle: string)
    ensures Includes(hay, needle) <==> exists i :: OccursAt(hay, needle, i)
    decreases |hay|
  {
    if |needle| > |hay| {
    } else if hay[..|needle|] == needle {
      assert OccursAt(hay, needle, 0);
    } else {
      IncludesIff(hay[1..], needle);
      if Includes(hay[1..], needle) {
        var i :| OccursAt(hay[1..], needle, i);
        assert hay[1..][i..i + |needle|] == hay[i + 1..i + 1 + |needle|];
        assert OccursAt(hay, needle, i + 1);
      } else {
        forall i | OccursAt(hay, needle, i) ensures false {
          if i != 0 {
            assert hay[1..][i - 1..i - 1 + |needle|] == hay[i..i + |needle|];
            assert OccursAt(hay[1..], needle, i - 1);
          }
        }
      }
    }
  }

  /** An occurrence inside `hay` is found in any string that embeds `hay`. */
  lemma IncludesInContext(pre: string, hay: string, post: string, needle: string)
    requires Includes(hay, needle)
    ensures Includes(pre + hay + post, needle)
  {
    IncludesIff(hay, needle);
    var i :| OccursAt(hay, needle, i);
    var big := pre + hay + post;
    assert big[|pre| + i..|pre| + i + |needle|] == hay[i..i + |needle|];
    assert OccursAt(big, needle, |pre| + i);
    IncludesIff(big, needle);
  }

  /** `names.join(sep)`. */
  function Join(names: seq<string>, sep: string): (r: string)
    ensures names == [] ==> r == []
    ensures |names| == 1 ==> r == names[0]
  {
    if names == [] then []
    else if |names| == 1 then names[0]
    else names[0] + sep + Join(names[1..], sep)
  }

  /** Joining one more name appends the separator and that name. */
  lemma {:induction false} JoinSnoc(names: seq<string>, sep: string, last: string)
    requires names != []
    ensures Join(names + [last], sep) == Join(names, sep) + sep + last
  {
    if |names| == 1 {
      assert (names + [last])[1..] == [last];
    } else {
      assert (names + [last])[1..] == names[1..] + [last];
      JoinSnoc(names[1..], sep, last);
    }
  }

  /** The joined text is as long as the names plus one separator between each
      pair of them. */
  lemma {:induction false} JoinLength(names: seq<string>, sep: string)
    ensures names != [] ==>
      |Join(names, sep)| == TotalLength(names) + (|names| - 1) * |sep|
  {
    if |names| > 1 {
      JoinLength(names[1..], sep);
    }
  }

  function TotalLength(names: seq<string>): nat {
    if names == [] then 0 else |names[0]| + TotalLength(names[1..])
  }
}
