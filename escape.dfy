/** `escapeHtml`: the encoder the widget applies to every message text before
    it is placed in the log's markup. Each of the five characters `& < > " '`
    becomes a fixed character reference; every other character is kept. */
module HtmlEscape {

  predicate IsSpecial(c: char) {
    c == '&' || c == '<' || c == '>' || c == '"' || c == '\''
  }

  predicate HasNoSpecial(s: string) {
    forall i :: 0 <= i < |s| ==> !IsSpecial(s[i])
  }

  /** The replacement table of the encoder. */
  function Entity(c: char): (r: string)
    ensures IsSpecial(c) ==> |r| >= 4 && r[0] == '&'
    ensures !IsSpecial(c) ==> r == [c]
  {
    match c
    case '&' => "&amp;"
    case '<' => "&lt;"
    case '>' => "&gt;"
    case '"' => "&quot;"
    case '\'' => "&#039;"
    case _ => [c]
  }

  /** The global replace, one character at a time from the left. */
  function Escape(s: string): (r: string)
    ensures |r| >= |s|
    ensures r == [] <==> s == []
  {
    if s == [] then [] else Entity(s[0]) + Escape(s[1..])
  }

  predicate StartsWith(s: string, prefix: string) {
    |prefix| <= |s| && s[..|prefix|] == prefix
  }

  /** Position `i` of `s` begins one of the five references the encoder emits. */
  predicate EntityAt(s: string, i: nat)
    requires i <= |s|
  {
    var t := s[i..];
    StartsWith(t, "&amp;") || StartsWith(t, "&lt;") || StartsWith(t, "&gt;") ||
    StartsWith(t, "&quot;") || StartsWith(t, "&#039;")
  }

  /** What a safe encoding looks like: no `<`, `>`, `"` or `'` at all, and
      every `&` opens a character reference. */
  predicate Safe(s: string) {
    (forall i :: 0 <= i < |s| ==> s[i] != '<' && s[i] != '>' && s[i] != '"' && s[i] != '\'') &&
    (forall i :: 0 <= i < |s| && s[i] == '&' ==> EntityAt(s, i))
  }

  lemma EntityAtExtends(s: string, t: string, i: nat)
    requires i <= |s| && EntityAt(s, i)
    ensures EntityAt(s + t, i)
  {
    var u := (s + t)[i..];
    assert u == s[i..] + t;
    var v := s[i..];
    assert forall p: string :: StartsWith(v, p) ==> StartsWith(u, p) by {
      forall p: string | StartsWith(v, p) ensures StartsWith(u, p) {
        assert u[..|p|] == v[..|p|];
      }
    }
  }

  lemma SafeConcat(a: string, b: string)
    requires Safe(a) && Safe(b)
    ensures Safe(a + b)
  {
    var s := a + b;
    forall i | 0 <= i < |s| && s[i] == '&' ensures EntityAt(s, i) {
      if i < |a| {
        assert s[i] == a[i];
        EntityAtExtends(a, b, i);
      } else {
        assert s[i] == b[i - |a|];
        assert s[i..] == b[i - |a|..];
      }
    }
  }

  lemma EntityIsSafe(c: char)
    ensures Safe(Entity(c))
  {
    var e := Entity(c);
    if IsSpecial(c) {
      assert EntityAt(e, 0);
      forall i | 0 < i < |e| ensures e[i] != '&' {
      }
    }
  }

  /** The encoder's output guarantee: nothing in it can open a tag or close an
      attribute value, and every `&` in it starts a reference. */
  lemma {:induction false} EscapeIsSafe(s: string)
    ensures Safe(Escape(s))
  {
    if s != [] {
      EntityIsSafe(s[0]);
      EscapeIsSafe(s[1..]);
      SafeConcat(Entity(s[0]), Escape(s[1..]));
    }
  }

  /** Escaping a concatenation escapes each part. */
  lemma {:induction false} EscapeConcat(a: string, b: string)
    ensures Escape(a + b) == Escape(a) + Escape(b)
  {
    if a == [] {
      assert a + b == b;
    } else {
      assert (a + b)[0] == a[0] && (a + b)[1..] == a[1..] + b;
      EscapeConcat(a[1..], b);
    }
  }

  /** The encoder never shortens its input, and lengthens it whenever there is
      something to replace. */
  lemma {:induction false} EscapeLength(s: string)
    ensures |Escape(s)| >= |s|
    ensures !HasNoSpecial(s) ==> |Escape(s)| > |s|
  {
    if s != [] {
      EscapeLength(s[1..]);
      if !IsSpecial(s[0]) && !HasNoSpecial(s) {
        var i :| 0 <= i < |s| && IsSpecial(s[i]);
        assert s[1..][i - 1] == s[i];
      }
    }
  }

  /** A string is left unchanged exactly when it has none of the five
      special characters. */
  lemma {:induction false} EscapeFixedPoints(s: string)
    ensures Escape(s) == s <==> HasNoSpecial(s)
  {
    EscapeLength(s);
    if HasNoSpecial(s) {
      KeepsPlainText(s);
    }
  }

  lemma {:induction false} KeepsPlainText(s: string)
    requires HasNoSpecial(s)
    ensures Escape(s) == s
  {
    if s != [] {
      assert !IsSpecial(s[0]);
      KeepsPlainText(s[1..]);
    }
  }

  /** The decoder for exactly the five references the encoder emits; any other
      `&` is kept as a literal character. */
  function Unescape(s: string): (r: string)
    decreases |s|
  {
    if s == [] then []
    else if StartsWith(s, "&amp;") then "&" + Unescape(s[5..])
    else if StartsWith(s, "&lt;") then "<" + Unescape(s[4..])
    else if StartsWith(s, "&gt;") then ">" + Unescape(s[4..])
    else if StartsWith(s, "&quot;") then "\"" + Unescape(s[6..])
    else if StartsWith(s, "&#039;") then "'" + Unescape(s[6..])
    else [s[0]] + Unescape(s[1..])
  }

  lemma UnescapeEntity(c: char, rest: string)
    ensures Unescape(Entity(c) + rest) == [c] + Unescape(rest)
  {
    var s := Entity(c) + rest;
    assert s[|Entity(c)|..] == rest;
    assert s[..|Entity(c)|] == Entity(c);
    if !IsSpecial(c) {
      assert s[0] == c;
      assert !StartsWith(s, "&amp;") && !StartsWith(s, "&lt;") && !StartsWith(s, "&gt;");
      assert !StartsWith(s, "&quot;") && !StartsWith(s, "&#039;");
    } else {
      assert s[1] == Entity(c)[1];
      assert c != '&' ==> !StartsWith(s, "&amp;");
      assert c != '<' ==> !StartsWith(s, "&lt;");
      assert c != '>' ==> !StartsWith(s, "&gt;");
      assert c != '"' ==> !StartsWith(s, "&quot;");
    }
  }

  /** Escaping loses nothing: decoding the output gives back the input. */
  lemma {:induction false} UnescapeEscape(s: string)
    ensures Unescape(Escape(s)) == s
  {
    if s != [] {
      UnescapeEntity(s[0], Escape(s[1..]));
      UnescapeEscape(s[1..]);
    }
  }

  /** Hence two different texts are never rendered the same. */
  lemma EscapeInjective(a: string, b: string)
    requires Escape(a) == Escape(b)
    ensures a == b
  {
    UnescapeEscape(a);
    UnescapeEscape(b);
  }
}
