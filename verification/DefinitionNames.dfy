/** Which definition the fragment of a reference denotes: percent-decoding as in section 2.1 of
    RFC 3986, then the escapes of JSON Pointer as in section 4 of RFC 6901. The program takes the
    name as it is written (crates/mp/src/mini_schema.rs). */
module DefinitionNames {
  import opened Prelude
  import opened Text

  function HexValue(c: char): Option<nat> {
    if IsDigit(c) then Some(DigitValue(c))
    else if 'a' <= c <= 'f' then Some(10 + (c - 'a') as nat)
    else if 'A' <= c <= 'F' then Some(10 + (c - 'A') as nat)
    else None
  }

  /** The octet that `%`, `high`, `low` stands for, where it is an ASCII character. */
  function Octet(high: char, low: char): Option<char> {
    match (HexValue(high), HexValue(low))
    case (Some(h), Some(l)) => if h < 8 then Some((16 * h + l) as char) else None
    case _ => None
  }

  /** An escape that is malformed or part of a longer encoding gives no result. */
  function PercentDecoded(s: string): Option<string> {
    if s == "" then Some("")
    else if s[0] != '%' then Prefixed(s[0], PercentDecoded(s[1..]))
    else if |s| < 3 || Octet(s[1], s[2]).None? then None
    else Prefixed(Octet(s[1], s[2]).value, PercentDecoded(s[3..]))
  }

  function Unescaped(s: string): Option<string> {
    if s == "" then Some("")
    else if s[0] != '~' then Prefixed(s[0], Unescaped(s[1..]))
    else if |s| >= 2 && s[1] == '0' then Prefixed('~', Unescaped(s[2..]))
    else if |s| >= 2 && s[1] == '1' then Prefixed('/', Unescaped(s[2..]))
    else None
  }

  function Prefixed(c: char, rest: Option<string>): Option<string> {
    if rest.Some? then Some([c] + rest.value) else None
  }

  /** The key of `$defs` that the reference "#/$defs/" + `name` denotes. */
  function KeyOf(name: string): Option<string> {
    match PercentDecoded(name)
    case None => None
    case Some(token) => Unescaped(token)
  }

  predicate PlainName(name: string) {
    '%' !in name && '~' !in name
  }

  /** Decoding shortens a string exactly if there is something to decode. */
  lemma {:induction false} PercentDecodedShortens(s: string)
    ensures '%' !in s ==> PercentDecoded(s) == Some(s)
    ensures '%' in s && PercentDecoded(s).Some? ==> |PercentDecoded(s).value| < |s|
    decreases |s|
  {
    if s != "" && s[0] != '%' {
      PercentDecodedShortens(s[1..]);
      assert s == [s[0]] + s[1..];
    } else if |s| >= 3 {
      PercentDecodedShortens(s[3..]);
    }
  }

  lemma {:induction false} UnescapedShortens(s: string)
    ensures '~' !in s ==> Unescaped(s) == Some(s)
    ensures '~' in s && Unescaped(s).Some? ==> |Unescaped(s).value| < |s|
    decreases |s|
  {
    if s != "" && s[0] != '~' {
      UnescapedShortens(s[1..]);
      assert s == [s[0]] + s[1..];
    } else if |s| >= 2 {
      UnescapedShortens(s[2..]);
    }
  }

  /** The program's reading of a name, to the letter, is right exactly for plain names. */
  lemma LiteralIffPlain(name: string)
    ensures KeyOf(name) == Some(name) <==> PlainName(name)
  {
    PercentDecodedShortens(name);
    if PercentDecoded(name).Some? {
      UnescapedShortens(PercentDecoded(name).value);
    }
  }

  /** "#/$defs/a~1b" denotes the definition "a/b". */
  lemma SlashIsEscaped()
    ensures KeyOf("a~1b") == Some("a/b")
  {
    PercentDecodedShortens("a~1b");
    UnescapedShortens("b");
    assert "a~1b"[1..] == "~1b" && "~1b"[2..] == "b";
    assert Unescaped("~1b") == Prefixed('/', Some("b")) && ['/'] + "b" == "/b";
    assert ['a'] + "/b" == "a/b";
  }
}
