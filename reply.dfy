/** The scripted ("mock") bot: the reply rule table `simpleReply` and the
    length-dependent delay after which `mockBot` delivers the reply. */
module MockReply {
  import opened Text

  // Written as two literals so that the verifier sees their first characters.
  const Greeting: string :=
    "Hello!" + " I can help you explore documentation. Try \U{201C}search pagination limits\U{201D}."

  const DocsTip: string :=
    "Docs tip:" + " use the sidebar filters or type \U{201C}/search <term>\U{201D}."

  const EchoPrefix: string := "You said: \""
  const EchoSuffix: string := "\". (In a real app, this calls Pidima\U{2019}s API.)"

  /** The fallback template, which quotes the user's text as typed. */
  function Echo(t: string): (r: string)
    ensures |r| == |EchoPrefix| + |t| + |EchoSuffix|
    ensures r[|EchoPrefix|..|EchoPrefix| + |t|] == t
  {
    EchoPrefix + t + EchoSuffix
  }

  /** Rule 1 fires on "hello" or "hi" anywhere in the lowercased text. */
  predicate GreetingWord(low: string) {
    Includes(low, "hello") || Includes(low, "hi")
  }

  /** Rule 2 fires on "doc" or "search" anywhere in the lowercased text. */
  predicate DocsWord(low: string) {
    Includes(low, "doc") || Includes(low, "search")
  }

  /** `simpleReply`: the rules are tried in order on the lowercased text and
      the first that fires decides the reply. */
  function SimpleReply(t: string): (r: string)
    ensures r == Greeting || r == DocsTip || r == Echo(t)
  {
    var low := ToLowerAscii(t);
    if GreetingWord(low) then Greeting
    else if DocsWord(low) then DocsTip
    else Echo(t)
  }

  /** The three replies are told apart by their first character, so the
      reply says which rule fired. */
  lemma RepliesDistinct(t: string)
    ensures Echo(t) != Greeting && Echo(t) != DocsTip && Greeting != DocsTip
  {
    assert Echo(t)[0] == EchoPrefix[0] == 'Y';
    assert Greeting[0] == 'H';
    assert DocsTip[0] == 'D';
  }

  /** Each reply is returned exactly when its rule is the first that fires:
      the greeting beats the docs tip, and the echo is the fallback. */
  lemma SimpleReplyRules(t: string)
    ensures SimpleReply(t) == Greeting <==> GreetingWord(ToLowerAscii(t))
    ensures SimpleReply(t) == DocsTip <==>
      !GreetingWord(ToLowerAscii(t)) && DocsWord(ToLowerAscii(t))
    ensures SimpleReply(t) == Echo(t) <==>
      !GreetingWord(ToLowerAscii(t)) && !DocsWord(ToLowerAscii(t))
  {
    RepliesDistinct(t);
  }

  /** The rule that fires depends only on the lowercased text, so "HELLO",
      "Hello" and "hello" get the same greeting. */
  lemma RuleIgnoresCase(a: string, b: string)
    requires ToLowerAscii(a) == ToLowerAscii(b)
    ensures SimpleReply(a) == Greeting <==> SimpleReply(b) == Greeting
    ensures SimpleReply(a) == DocsTip <==> SimpleReply(b) == DocsTip
  {
    SimpleReplyRules(a);
    SimpleReplyRules(b);
  }

  /** When no keyword rule fires, the reply is the echo, and it keeps the
      user's original spelling: the text appears in it as typed, not
      lowercased. */
  lemma EchoQuotesText(t: string)
    requires !GreetingWord(ToLowerAscii(t)) && !DocsWord(ToLowerAscii(t))
    ensures SimpleReply(t) == Echo(t)
    ensures Includes(SimpleReply(t), t)
  {
    assert Includes(t, t) by {
      assert t[..|t|] == t;
    }
    IncludesInContext(EchoPrefix, t, EchoSuffix, t);
  }

  /** A text that opens with "hi" or "Hi" is greeted whatever follows, even
      a docs keyword. */
  lemma OpeningHiGreets(first: char, rest: string)
    requires first == 'h' || first == 'H'
    ensures SimpleReply([first, 'i'] + rest) == Greeting
  {
    var low := ToLowerAscii([first, 'i'] + rest);
    assert low[..2] == "hi";
  }

  /** The precedence example: "hi there, can you search docs" gets the
      greeting, not the docs tip. */
  lemma GreetingBeatsDocs()
    ensures SimpleReply("hi there, can you search docs") == Greeting
  {
    assert "hi there, can you search docs" == ['h', 'i'] + " there, can you search docs";
    OpeningHiGreets('h', " there, can you search docs");
  }

  /** The match is on substrings: "this" contains "hi" and is greeted. */
  lemma SubstringGreets()
    ensures SimpleReply("this") == Greeting
  {
    var low := ToLowerAscii("this");
    assert low == "this";
    assert low[1..][..2] == "hi";
  }

  /** `toLowerCase` makes the check case-insensitive. */
  lemma UpperCaseGreets()
    ensures SimpleReply("HELLO") == Greeting
  {
    assert ToLowerAscii("HELLO") == "hello";
  }

  /** The delay before the bot's reply for a text of `n` characters:
      `1000 + Math.min(1200, n * 20)`. */
  function ReplyDelay(n: nat): (d: nat)
    ensures 1000 <= d <= 2200
    ensures n >= 60 ==> d == 2200
    ensures n < 60 ==> d < 2200
  {
    1000 + if n * 20 < 1200 then n * 20 else 1200
  }

  /** A longer text never gets a quicker reply, and below the cap each extra
      character adds 20. */
  lemma ReplyDelayMonotone(m: nat, n: nat)
    requires m <= n
    ensures ReplyDelay(m) <= ReplyDelay(n)
    ensures n < 60 ==> ReplyDelay(n) - ReplyDelay(m) == 20 * (n - m)
  {
  }
}
