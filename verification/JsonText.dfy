/**
 Undoing the escapes of a JSON string (`replace_escaped_chars` in `src/aknano_api.c`). Only newline,
 carriage return, quote and backslash are known; an escape of anything else disappears, and a backslash
 at the very end stays.
 */
module JsonText {
  import opened Bytes

  const BACKSLASH: uint8 := 92
  const QUOTE: uint8 := 34
  const NEWLINE: uint8 := 10
  const RETURN: uint8 := 13

  /** What a backslash and this character stand for. */
  function Meaning(c: uint8): (m: seq<uint8>)
    ensures |m| <= 1
  {
    if c == 110 then [NEWLINE]
    else if c == 114 then [RETURN]
    else if c == QUOTE || c == BACKSLASH then [c]
    else []
  }

  function Unescape(s: seq<uint8>): (r: seq<uint8>)
    ensures |r| <= |s|
  {
    if s == [] then []
    else if s[0] == BACKSLASH && |s| > 1 then Meaning(s[1]) + Unescape(s[2..])
    else [s[0]] + Unescape(s[1..])
  }

  /** The escapes that section 7 of RFC 8259 prescribes for the four characters. */
  function EscapeChar(c: uint8): seq<uint8> {
    if c == NEWLINE then [BACKSLASH, 110]
    else if c == RETURN then [BACKSLASH, 114]
    else if c == QUOTE || c == BACKSLASH then [BACKSLASH, c]
    else [c]
  }

  function Escape(s: seq<uint8>): seq<uint8> {
    if s == [] then [] else EscapeChar(s[0]) + Escape(s[1..])
  }

  /** The escapes by their characters; any other escape disappears, and a last backslash stays. */
  lemma EscapesByCharacter(c: uint8, rest: seq<uint8>)
    ensures Unescape([BACKSLASH, 'n' as int] + rest) == ['\n' as int] + Unescape(rest)
    ensures Unescape([BACKSLASH, 'r' as int] + rest) == ['\r' as int] + Unescape(rest)
    ensures Unescape([BACKSLASH, '\"' as int] + rest) == ['\"' as int] + Unescape(rest)
    ensures Unescape([BACKSLASH, '\\' as int] + rest) == ['\\' as int] + Unescape(rest)
    ensures c as char !in "nr\"\\" ==> Unescape([BACKSLASH, c] + rest) == Unescape(rest)
    ensures Unescape([BACKSLASH]) == ['\\' as int]
    ensures c != BACKSLASH ==> Unescape([c] + rest) == [c] + Unescape(rest)
  {
    EscapeStep(110, rest);
    EscapeStep(114, rest);
    EscapeStep(QUOTE, rest);
    EscapeStep(BACKSLASH, rest);
    EscapeStep(c, rest);
    assert ([c] + rest)[1..] == rest;
  }

  lemma EscapeStep(c: uint8, rest: seq<uint8>)
    ensures Unescape([BACKSLASH, c] + rest) == Meaning(c) + Unescape(rest)
  {
    assert ([BACKSLASH, c] + rest)[2..] == rest;
  }

  /** Only the four escapes, and no bare character that needs one. */
  predicate IsEscaped(s: seq<uint8>) {
    s == [] ||
    if s[0] == BACKSLASH then |s| > 1 && Meaning(s[1]) != [] && IsEscaped(s[2..])
    else EscapeChar(s[0]) == [s[0]] && IsEscaped(s[1..])
  }

  /** Unescaping undoes escaping, for every text. */
  lemma {:induction false} UnescapeOfEscape(s: seq<uint8>)
    ensures IsEscaped(Escape(s)) && Unescape(Escape(s)) == s
  {
    if s != [] {
      UnescapeOfEscape(s[1..]);
      var e, rest := EscapeChar(s[0]), Escape(s[1..]);
      assert (e + rest)[|e|..] == rest;
      assert s == [s[0]] + s[1..];
    }
  }

  /** And escaping undoes unescaping exactly on text that is escaped that way. */
  lemma {:induction false} EscapeOfUnescape(s: seq<uint8>)
    ensures Escape(Unescape(s)) == s <==> IsEscaped(s)
  {
    if IsEscaped(s) {
      EscapedSurvives(s);
    } else {
      UnescapeOfEscape(Unescape(s));
    }
  }

  lemma {:induction false} EscapedSurvives(s: seq<uint8>)
    requires IsEscaped(s)
    ensures Escape(Unescape(s)) == s
  {
    if s != [] {
      var head, n := if s[0] == BACKSLASH then Meaning(s[1]) else [s[0]], if s[0] == BACKSLASH then 2 else 1;
      EscapedSurvives(s[n..]);
      var r := Unescape(s);
      assert r == head + Unescape(s[n..]) && r[1..] == Unescape(s[n..]);
      assert s == s[..n] + s[n..];
    }
  }

  /** `replace_escaped_chars`: the text and a terminator; the rest of the destination is not touched. */
  method ReplaceEscapedChars(dst: array<uint8>, src: seq<uint8>)
    requires |src| < dst.Length
    modifies dst
    ensures var text := Unescape(src);
            dst[..] == text + [0] + old(dst[|text| + 1..])
  {
    var p, d := 0, 0;
    ghost var before, text := dst[..], [];
    while p < |src|
      invariant |text| == d <= p <= |src| && Undone(src, p, text)
      invariant dst[..] == text + before[d..]
    {
      UndoneStep(src, p, text);
      if src[p] == BACKSLASH && p < |src| - 1 {
        d, text := Put(dst, d, Meaning(src[p + 1]), text, before);
        p := p + 1;
      } else {
        d, text := Put(dst, d, [src[p]], text, before);
      }
      p := p + 1;
    }
    assert text == Unescape(src);
    d, text := Put(dst, d, [0], text, before);
  }

  /** Writes at most one character behind the text so far. */
  method Put(dst: array<uint8>, d: nat, m: seq<uint8>, ghost text: seq<uint8>, ghost before: seq<uint8>)
    returns (next: nat, ghost longer: seq<uint8>)
    requires |m| <= 1 && |text| == d && d + |m| <= dst.Length == |before| && dst[..] == text + before[d..]
    modifies dst
    ensures next == d + |m| && longer == text + m && dst[..] == longer + before[next..]
  {
    next, longer := d, text + m;
    if m != [] {
      dst[d] := m[0];
      next := d + 1;
    }
  }

  /** `text` is what the first `p` characters of the source stand for. */
  ghost predicate Undone(src: seq<uint8>, p: nat, text: seq<uint8>) {
    p <= |src| && text + Unescape(src[p..]) == Unescape(src)
  }

  lemma UndoneStep(src: seq<uint8>, p: nat, text: seq<uint8>)
    requires p < |src| && Undone(src, p, text)
    ensures if src[p] == BACKSLASH && p < |src| - 1 then Undone(src, p + 2, text + Meaning(src[p + 1]))
            else Undone(src, p + 1, text + [src[p]])
  {
    var rest := src[p..];
    assert rest[1..] == src[p + 1..];
    if rest[0] == BACKSLASH && |rest| > 1 {
      assert rest[2..] == src[p + 2..];
      assert text + (Meaning(rest[1]) + Unescape(rest[2..])) == (text + Meaning(rest[1])) + Unescape(rest[2..]);
    } else {
      assert text + ([rest[0]] + Unescape(rest[1..])) == (text + [rest[0]]) + Unescape(rest[1..]);
    }
  }
}
