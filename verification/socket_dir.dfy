/**
  The socket directory of an `HsdsApp`: the temporary directory's name with every
  `/` written as `%2F` (the percent-encoding of `/` from section 2.1 of RFC 3986,
  applied to `/` and to nothing else), plus one more `%2F` when the name does not
  already end in `/`. The result is spliced into `http+unix://` URLs.
 */
module SocketDir {
  import opened Text

  /** The escape written for one path separator. */
  const SlashEscape := "%2F"

  function Escape(c: char): string
  {
    if c == '/' then SlashEscape else [c]
  }

  /** Every `/` of `s` written as `%2F`, every other character kept, in order. */
  function EscapeAll(s: string): string
  {
    if s == [] then [] else Escape(s[0]) + EscapeAll(s[1..])
  }

  /** The socket directory derived from a (non-empty) temporary directory name. */
  function SocketDirOf(name: string): string
    requires |name| > 0
  {
    EscapeAll(name) + (if name[|name| - 1] != '/' then SlashEscape else "")
  }

  /** Turns every `%2F` back into `/`, scanning left to right. */
  function Unescape(s: string): string
  {
    if |s| >= 3 && s[..3] == SlashEscape then "/" + Unescape(s[3..])
    else if s == [] then []
    else [s[0]] + Unescape(s[1..])
  }

  /** Escaping one more character extends the escaped text by that character's escape. */
  lemma {:induction false} EscapeAllSnoc(s: string, c: char)
    ensures EscapeAll(s + [c]) == EscapeAll(s) + Escape(c)
  {
    if s != [] {
      assert (s + [c])[1..] == s[1..] + [c];
      EscapeAllSnoc(s[1..], c);
    }
  }

  /**
    The loop of `HsdsApp.__init__` that builds the socket directory character by
    character, followed by the trailing separator.
   */
  method EncodeSocketDir(name: string) returns (dir: string)
    requires |name| > 0
    ensures dir == SocketDirOf(name)
  {
    dir := "";
    for i := 0 to |name|
      invariant dir == EscapeAll(name[..i])
    {
      assert name[..i + 1] == name[..i] + [name[i]];
      EscapeAllSnoc(name[..i], name[i]);
      if name[i] == '/' {
        dir := dir + SlashEscape;
      } else {
        dir := dir + [name[i]];
      }
    }
    assert name[..|name|] == name;
    if name[|name| - 1] != '/' {
      dir := dir + SlashEscape;
    }
  }

  /** No separator survives the encoding. */
  lemma {:induction false} EscapeAllHasNoSlash(s: string)
    ensures '/' !in EscapeAll(s)
  {
    if s != [] {
      EscapeAllHasNoSlash(s[1..]);
    }
  }

  /** The encoding introduces no character other than those of `%2F`. */
  lemma {:induction false} EscapeAllKeepsAbsent(s: string, c: char)
    requires c !in s && c !in SlashEscape
    ensures c !in EscapeAll(s)
  {
    if s != [] {
      EscapeAllKeepsAbsent(s[1..], c);
    }
  }

  /** Whatever the name, the socket directory ends in `%2F` and holds no `/`. */
  lemma SocketDirShape(name: string)
    requires |name| > 0
    ensures EndsWith(SocketDirOf(name), SlashEscape)
    ensures '/' !in SocketDirOf(name)
  {
    var init := name[..|name| - 1];
    assert name == init + [name[|name| - 1]];
    EscapeAllSnoc(init, name[|name| - 1]);
    EscapeAllHasNoSlash(name);
  }

  /** Decoding an escaped name (one without `%`) gives the name back. */
  lemma {:induction false} UnescapeEscapeAll(s: string, t: string)
    requires '%' !in s
    ensures Unescape(EscapeAll(s) + t) == s + Unescape(t)
  {
    if s != [] {
      UnescapeEscapeAll(s[1..], t);
      var rest := EscapeAll(s[1..]) + t;
      AppendAssociative(Escape(s[0]), EscapeAll(s[1..]), t);
      assert EscapeAll(s) + t == Escape(s[0]) + rest;
      if s[0] == '/' {
        assert (SlashEscape + rest)[..3] == SlashEscape;
        assert (SlashEscape + rest)[3..] == rest;
        assert Unescape(SlashEscape + rest) == "/" + Unescape(rest);
      } else {
        var u := [s[0]] + rest;
        assert u[0] != '%' && u[1..] == rest;
        assert Unescape(u) == [s[0]] + Unescape(rest);
      }
      assert s == [s[0]] + s[1..];
      AppendAssociative([s[0]], s[1..], Unescape(t));
    } else {
      assert EscapeAll(s) + t == t;
    }
  }

  /**
    The encoding is reversible: decoding the socket directory of a name without
    `%` gives the name, ended by exactly one `/`.
   */
  lemma SocketDirDecodes(name: string)
    requires |name| > 0 && '%' !in name
    ensures Unescape(SocketDirOf(name)) == if name[|name| - 1] == '/' then name else name + "/"
  {
    if name[|name| - 1] == '/' {
      UnescapeEscapeAll(name, "");
      assert EscapeAll(name) + "" == EscapeAll(name);
    } else {
      UnescapeEscapeAll(name, SlashEscape);
      assert Unescape(SlashEscape) == "/" + Unescape("");
    }
  }
}
