/** The `application/x-www-form-urlencoded` text of a query string or a
    fragment, as read and written by the handler through serde_urlencoded.

    This is a stand-in for that library, over characters rather than UTF-8
    bytes: an ASCII character other than the unreserved ones is written as
    `%XX`, a space as `+`, and a non-ASCII character is kept as it is. Pairs
    are written `key=value` and separated by `&`. Reading splits at `&`,
    skips empty pieces, cuts each piece at its first `=` (a piece without
    one is a key with an empty value) and undoes the escapes. */
module FormUrlencoded {
  import opened Common
  import opened Strings

  type Pair = (string, string)

  // ---------------------------------------------------------------------
  // Characters and escapes

  predicate Unreserved(c: char)
  {
    ('A' <= c <= 'Z') || ('a' <= c <= 'z') || ('0' <= c <= '9') ||
    c == '*' || c == '-' || c == '.' || c == '_'
  }

  predicate IsHex(c: char)
  {
    ('0' <= c <= '9') || ('A' <= c <= 'F') || ('a' <= c <= 'f')
  }

  /** The upper-case hexadecimal digit for `n`. */
  function Hex(n: nat): (c: char)
    requires n < 16
    ensures IsHex(c) && Unreserved(c)
  {
    if n < 10 then (48 + n) as char else (55 + n) as char
  }

  function HexValue(c: char): (n: nat)
    requires IsHex(c)
    ensures n < 16
  {
    if '0' <= c <= '9' then c as int - 48
    else if 'A' <= c <= 'F' then c as int - 55
    else c as int - 87
  }

  /** The characters an escaped text can hold. */
  predicate Escaped(c: char)
  {
    Unreserved(c) || c == '+' || c == '%' || c as int >= 128
  }

  function EscapeChar(c: char): string
  {
    if Unreserved(c) then [c]
    else if c == ' ' then "+"
    else if c as int < 128 then ['%', Hex(c as int / 16), Hex(c as int % 16)]
    else [c]
  }

  function Escape(s: string): string
    decreases |s|
  {
    if |s| == 0 then "" else EscapeChar(s[0]) + Escape(s[1..])
  }

  /** Undoes `+` and every `%XX` with two hexadecimal digits; anything else,
      a `%` without two digits after it included, is kept. */
  function Unescape(s: string): string
    decreases |s|
  {
    if |s| == 0 then ""
    else if s[0] == '%' && |s| >= 3 && IsHex(s[1]) && IsHex(s[2]) then
      [(HexValue(s[1]) * 16 + HexValue(s[2])) as char] + Unescape(s[3..])
    else if s[0] == '+' then " " + Unescape(s[1..])
    else [s[0]] + Unescape(s[1..])
  }

  lemma UnescapeEscapeChar(c: char, t: string)
    ensures Unescape(EscapeChar(c) + t) == [c] + Unescape(t)
  {
    var s := EscapeChar(c) + t;
    if Unreserved(c) || c as int >= 128 {
      assert s[1..] == t;
    } else if c == ' ' {
      assert s[1..] == t;
    } else {
      var hi, lo := c as int / 16, c as int % 16;
      assert s[1] == Hex(hi) && s[2] == Hex(lo);
      assert HexValue(Hex(hi)) == hi && HexValue(Hex(lo)) == lo;
      assert s[3..] == t;
    }
  }

  /** Reading an escaped text gives back the original text. */
  lemma {:induction false} UnescapeEscape(s: string)
    ensures Unescape(Escape(s)) == s
    decreases |s|
  {
    if |s| > 0 {
      UnescapeEscapeChar(s[0], Escape(s[1..]));
      UnescapeEscape(s[1..]);
      assert [s[0]] + s[1..] == s;
    }
  }

  /** A text of unreserved characters is written and read as it is. */
  lemma {:induction false} PlainText(s: string)
    requires forall i :: 0 <= i < |s| ==> Unreserved(s[i])
    ensures Escape(s) == s && Unescape(s) == s
    ensures Free(s, '&') && Free(s, '=')
    decreases |s|
  {
    if |s| > 0 {
      PlainText(s[1..]);
      assert [s[0]] + s[1..] == s;
    }
  }

  /** An escaped text holds no raw `&`, `=` or space. */
  lemma {:induction false} EscapeOnlyEscaped(s: string)
    ensures forall i :: 0 <= i < |Escape(s)| ==> Escaped(Escape(s)[i])
    decreases |s|
  {
    if |s| > 0 {
      EscapeOnlyEscaped(s[1..]);
      var e, rest := EscapeChar(s[0]), Escape(s[1..]);
      assert forall i :: 0 <= i < |e| ==> Escaped(e[i]);
      assert forall i :: 0 <= i < |e + rest| ==>
        (e + rest)[i] == if i < |e| then e[i] else rest[i - |e|];
    }
  }

  // ---------------------------------------------------------------------
  // Pairs

  function FormatPair(p: Pair): string
  {
    Escape(p.0) + "=" + Escape(p.1)
  }

  function FormatPairs(ps: seq<Pair>): (r: seq<string>)
    ensures |r| == |ps|
  {
    seq(|ps|, i requires 0 <= i < |ps| => FormatPair(ps[i]))
  }

  /** serde_urlencoded::to_string of a flat list of string pairs. */
  function Encode(ps: seq<Pair>): string
  {
    Join(FormatPairs(ps), '&')
  }

  /** Pieces cut at their first `=`, empty pieces skipped, escapes kept. */
  function ParseSegments(segs: seq<string>): seq<Pair>
    decreases |segs|
  {
    if |segs| == 0 then []
    else if segs[0] == "" then ParseSegments(segs[1..])
    else [SplitOnce(segs[0], '=')] + ParseSegments(segs[1..])
  }

  /** The pairs of a text as written, before any escape is undone. */
  function RawPairs(s: string): seq<Pair>
  {
    ParseSegments(Split(s, '&'))
  }

  function UnescapePairs(raw: seq<Pair>): (r: seq<Pair>)
    ensures |r| == |raw|
  {
    seq(|raw|, i requires 0 <= i < |raw| => (Unescape(raw[i].0), Unescape(raw[i].1)))
  }

  /** The pairs a form-urlencoded text stands for, in the order written. */
  function Decode(s: string): seq<Pair>
  {
    UnescapePairs(RawPairs(s))
  }

  /** serde_urlencoded::from_str into a map of BORROWED `&str` keys and
      values: it can only hand out text that needs no unescaping, so it
      fails when some key or value holds a `+` or a `%XX` escape. */
  function DecodeBorrowed(s: string): (r: Option<seq<Pair>>)
    ensures r.Some? <==> Decode(s) == RawPairs(s)
    ensures r.Some? ==> r.value == Decode(s)
  {
    var raw := RawPairs(s);
    if forall i :: 0 <= i < |raw| ==> Unescape(raw[i].0) == raw[i].0 && Unescape(raw[i].1) == raw[i].1
    then Some(raw)
    else
      assert exists i :: 0 <= i < |raw| && Decode(s)[i] != raw[i];
      None
  }

  lemma FormatPairFree(p: Pair)
    ensures Free(FormatPair(p), '&')
    ensures FormatPair(p) != ""
    ensures SplitOnce(FormatPair(p), '=') == (Escape(p.0), Escape(p.1))
  {
    EscapeOnlyEscaped(p.0);
    EscapeOnlyEscaped(p.1);
    var s := FormatPair(p);
    assert forall i :: 0 <= i < |s| ==>
      s[i] == if i < |Escape(p.0)| then Escape(p.0)[i]
              else if i == |Escape(p.0)| then '='
              else Escape(p.1)[i - |Escape(p.0)| - 1];
    SplitOnceAt(Escape(p.0), '=', Escape(p.1));
  }

  lemma {:induction false} ParseFormatted(ps: seq<Pair>)
    ensures ParseSegments(FormatPairs(ps)) == seq(|ps|, i requires 0 <= i < |ps| => (Escape(ps[i].0), Escape(ps[i].1)))
    decreases |ps|
  {
    if |ps| > 0 {
      FormatPairFree(ps[0]);
      assert FormatPairs(ps)[1..] == FormatPairs(ps[1..]);
      ParseFormatted(ps[1..]);
    }
  }

  /** Round trip: reading what Encode wrote gives back the same pairs, in
      the same order. */
  lemma DecodeEncode(ps: seq<Pair>)
    ensures Decode(Encode(ps)) == ps
  {
    var segs := FormatPairs(ps);
    if |ps| == 0 {
      assert Split("", '&') == [""];
    } else {
      forall i | 0 <= i < |segs| ensures Free(segs[i], '&') {
        FormatPairFree(ps[i]);
      }
      SplitJoin(segs, '&');
      ParseFormatted(ps);
      forall i | 0 <= i < |ps| ensures Unescape(Escape(ps[i].0)) == ps[i].0 && Unescape(Escape(ps[i].1)) == ps[i].1 {
        UnescapeEscape(ps[i].0);
        UnescapeEscape(ps[i].1);
      }
    }
  }

  // ---------------------------------------------------------------------
  // The decoded `HashMap`

  function KeysOf(ps: seq<Pair>): set<string>
  {
    set i | 0 <= i < |ps| :: ps[i].0
  }

  /** The map built by inserting the pairs in order: a later pair replaces an
      earlier one with the same key. */
  function ToMap(ps: seq<Pair>): map<string, string>
    decreases |ps|
  {
    if |ps| == 0 then map[] else map[ps[0].0 := ps[0].1] + ToMap(ps[1..])
  }

  /** The entries of ToMap(ps) as a list: the last pair of each key, in the
      order those last pairs were written. A `HashMap` yields its entries in
      an unspecified order; this is one of them. */
  function Collapse(ps: seq<Pair>): seq<Pair>
    decreases |ps|
  {
    if |ps| == 0 then []
    else if ps[0].0 in KeysOf(ps[1..]) then Collapse(ps[1..])
    else [ps[0]] + Collapse(ps[1..])
  }

  lemma KeysOfTail(ps: seq<Pair>)
    requires |ps| > 0
    ensures KeysOf(ps) == {ps[0].0} + KeysOf(ps[1..])
  {
    forall k | k in KeysOf(ps) ensures k in {ps[0].0} + KeysOf(ps[1..]) {
      var i :| 0 <= i < |ps| && ps[i].0 == k;
      if i > 0 { assert ps[1..][i - 1].0 == k; }
    }
    forall k | k in KeysOf(ps[1..]) ensures k in KeysOf(ps) {
      var i :| 0 <= i < |ps[1..]| && ps[1..][i].0 == k;
      assert ps[i + 1].0 == k;
    }
  }

  /** The collapsed list holds exactly the entries of the map, each once. */
  lemma {:induction false} CollapseIsMap(ps: seq<Pair>)
    ensures ToMap(ps).Keys == KeysOf(ps)
    ensures forall p :: p in Collapse(ps) <==> p.0 in ToMap(ps) && ToMap(ps)[p.0] == p.1
    ensures forall i, j :: 0 <= i < j < |Collapse(ps)| ==> Collapse(ps)[i].0 != Collapse(ps)[j].0
    decreases |ps|
  {
    if |ps| > 0 {
      CollapseIsMap(ps[1..]);
      KeysOfTail(ps);
      var c, rest := Collapse(ps), Collapse(ps[1..]);
      if ps[0].0 !in KeysOf(ps[1..]) {
        assert c == [ps[0]] + rest;
        forall i | 0 <= i < |rest| ensures rest[i].0 != ps[0].0 {
          assert rest[i] in rest;
        }
      }
    }
  }
}
