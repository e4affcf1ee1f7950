/** The SQL `LIKE` operator with an escape character, and the escaping of literal prefixes. */
module Like {
  const WILDCARD_MANY := '%'
  const WILDCARD_ONE := '_'
  const ESCAPE := '\\'

  /** A pattern is well formed when no escape character ends it. */
  predicate WellFormed(pattern: string, escape: char) {
    if pattern == "" then true
    else if pattern[0] == escape then |pattern| > 1 && WellFormed(pattern[2..], escape)
    else WellFormed(pattern[1..], escape)
  }

  /** Whether the whole of `text` matches `pattern`. */
  predicate Matches(text: string, pattern: string, escape: char)
    requires WellFormed(pattern, escape)
    decreases |pattern|, |text|
  {
    if pattern == "" then text == ""
    else if pattern[0] == escape then
      text != "" && text[0] == pattern[1] && Matches(text[1..], pattern[2..], escape)
    else if pattern[0] == WILDCARD_MANY then
      Matches(text, pattern[1..], escape) || (text != "" && Matches(text[1..], pattern, escape))
    else
      text != ""
      && (pattern[0] == WILDCARD_ONE || text[0] == pattern[0])
      && Matches(text[1..], pattern[1..], escape)
  }

  predicate IsMeta(c: char) {
    c == ESCAPE || c == WILDCARD_MANY || c == WILDCARD_ONE
  }

  /** What `EscapePrefix` computes. */
  function Escaped(input: string): string {
    if input == "" then ""
    else (if IsMeta(input[0]) then [ESCAPE, input[0]] else [input[0]]) + Escaped(input[1..])
  }

  lemma EscapedSnoc(input: string, c: char)
    ensures Escaped(input + [c]) == Escaped(input) + if IsMeta(c) then [ESCAPE, c] else [c]
  {
    if input == "" {
      assert input + [c] == [c];
    } else {
      assert (input + [c])[1..] == input[1..] + [c];
      EscapedSnoc(input[1..], c);
    }
  }

  method EscapePrefix(input: string) returns (escaped: string)
    ensures escaped == Escaped(input)
  {
    escaped := "";
    for i := 0 to |input|
      invariant escaped == Escaped(input[..i])
    {
      EscapedSnoc(input[..i], input[i]);
      assert input[..i + 1] == input[..i] + [input[i]];
      if IsMeta(input[i]) {
        escaped := escaped + [ESCAPE];
      }
      escaped := escaped + [input[i]];
    }
    assert input[..|input|] == input;
  }

  lemma {:induction false} ManyMatchesEverything(text: string)
    ensures Matches(text, [WILDCARD_MANY], ESCAPE)
  {
    if text != "" {
      ManyMatchesEverything(text[1..]);
    }
  }

  /** The escaped prefix followed by `%` selects exactly the texts that start with the prefix. */
  lemma {:induction false} EscapedPrefixMatchesExactlyPrefixes(prefix: string, text: string)
    ensures WellFormed(Escaped(prefix) + [WILDCARD_MANY], ESCAPE)
    ensures Matches(text, Escaped(prefix) + [WILDCARD_MANY], ESCAPE) <==> prefix <= text
  {
    var pattern := Escaped(prefix) + [WILDCARD_MANY];
    if prefix == "" {
      assert pattern == [WILDCARD_MANY];
      ManyMatchesEverything(text);
    } else {
      var tail := Escaped(prefix[1..]) + [WILDCARD_MANY];
      EscapedPrefixMatchesExactlyPrefixes(prefix[1..], if text == "" then "" else text[1..]);
      if IsMeta(prefix[0]) {
        assert pattern == [ESCAPE, prefix[0]] + tail;
        assert pattern[2..] == tail;
      } else {
        assert pattern == [prefix[0]] + tail;
        assert pattern[1..] == tail;
      }
      if text != "" {
        assert prefix <= text <==> prefix[0] == text[0] && prefix[1..] <= text[1..];
      }
    }
  }
}
