/** The text of a dictionary: lines of key=value with escaped values, and what a lookup in it means. */
module DictionaryText {
  import opened Wrappers
  import opened Blocks

  const LF: bv8 := 10
  const CR: bv8 := 13
  const EQ: bv8 := 61
  const BACKSLASH: bv8 := 92

  // ---- Escaping ----

  predicate Special(c: bv8) { c == 0 || c == CR || c == LF || c == BACKSLASH || c == EQ }

  /** The letter that stands for a special byte after the backslash. */
  function Letter(c: bv8): bv8 {
    if c == 0 then 48 else if c == CR then 114 else if c == LF then 110 else if c == BACKSLASH then BACKSLASH else 101
  }

  function EscapeByte(c: bv8): Bytes { if Special(c) then [BACKSLASH, Letter(c)] else [c] }

  function Escape(v: Bytes): Bytes { if v == [] then [] else Escape(v[..|v| - 1]) + EscapeByte(v[|v| - 1]) }

  /** The byte that a letter after a backslash stands for. */
  function Unletter(c: bv8): bv8 {
    if c == 114 then CR else if c == 110 then LF else if c == 48 then 0 else if c == 101 then EQ else c
  }

  /** The text format, byte by byte: which bytes are escaped, and as what. */
  lemma EscapedAs(c: bv8)
    ensures EscapeByte(c) ==
      if c == 0 then [92, 48]
      else if c == 10 then [92, 110]
      else if c == 13 then [92, 114]
      else if c == 61 then [92, 101]
      else if c == 92 then [92, 92]
      else [c]
  {
  }

  datatype Scan = Scan(out: Bytes, esc: bool)

  function Feed(s: Scan, c: bv8): Scan {
    if s.esc then Scan(s.out + [Unletter(c)], false)
    else if c == BACKSLASH then Scan(s.out, true)
    else Scan(s.out + [c], false)
  }

  /** What the value scanner has produced after the bytes s, and whether a backslash is pending. */
  function Scanned(s: Bytes): Scan { if s == [] then Scan([], false) else Feed(Scanned(s[..|s| - 1]), s[|s| - 1]) }

  function Unescape(s: Bytes): Bytes { Scanned(s).out }

  lemma ScanMore(s: Bytes, c: bv8)
    ensures Scanned(s + [c]) == Feed(Scanned(s), c)
  {
    assert (s + [c])[..|s|] == s;
  }

  lemma LetterBack(c: bv8)
    ensures Special(c) ==> Unletter(Letter(c)) == c
  {
  }

  lemma ScanEscapeByte(e: Bytes, init: Bytes, c: bv8)
    requires Scanned(e) == Scan(init, false)
    ensures Scanned(e + EscapeByte(c)) == Scan(init + [c], false)
  {
    hide Scanned, Letter, Unletter;
    if Special(c) {
      ScanMore(e, BACKSLASH);
      ScanMore(e + [BACKSLASH], Letter(c));
      assert e + [BACKSLASH] + [Letter(c)] == e + EscapeByte(c);
      LetterBack(c);
    } else {
      ScanMore(e, c);
    }
  }

  lemma {:induction false} ScanEscape(v: Bytes)
    ensures Scanned(Escape(v)) == Scan(v, false)
  {
    if v != [] {
      var init, c := v[..|v| - 1], v[|v| - 1];
      ScanEscape(init);
      assert init + [c] == v;
      ScanEscapeByte(Escape(init), init, c);
    }
  }

  /** An escaped value has no byte that would end it. */
  lemma {:induction false} EscapeClean(v: Bytes)
    ensures forall c | c in Escape(v) :: c != 0 && c != CR && c != LF && c != EQ
  {
    if v != [] {
      EscapeClean(v[..|v| - 1]);
      LetterClean(v[|v| - 1]);
    }
  }

  lemma LetterClean(c: bv8)
    ensures forall d | d in EscapeByte(c) :: d != 0 && d != CR && d != LF && d != EQ
  {
  }

  /** What has been produced is never taken back. */
  lemma {:induction false} ScanPrefix(s: Bytes, n: nat)
    requires n <= |s|
    ensures Unescape(s[..n]) <= Unescape(s)
  {
    if n < |s| {
      ScanPrefix(s[..|s| - 1], n);
      assert s[..|s| - 1][..n] == s[..n];
    } else {
      assert s[..n] == s;
    }
  }

  // ---- Lines and lookup ----

  predicate EndsLine(c: bv8) { c == CR || c == LF }

  /** Lines end with a carriage return or a line feed; they are written with a line feed between them. */
  lemma TextFormat(s: Bytes, key: Bytes, v: Bytes)
    ensures forall c :: EndsLine(c) <==> c == 13 || c == 10
    ensures Added(s, key, v) == (if s == [] then [] else s + [10]) + key + [61] + Escape(v)
  {
  }

  /** The length of the first line. */
  function LineEnd(s: Bytes): (n: nat)
    ensures n <= |s| && (forall i | 0 <= i < n :: !EndsLine(s[i])) && (n < |s| ==> EndsLine(s[n]))
  {
    if s == [] || EndsLine(s[0]) then 0 else 1 + LineEnd(s[1..])
  }

  predicate Legal(key: Bytes) { forall c | c in key :: c != 0 && c != CR && c != LF && c != EQ }

  /** The value of the first line that starts with the key and an equals sign. */
  function Lookup(key: Bytes, s: Bytes): Option<Bytes>
    decreases |s|
  {
    if s == [] then None
    else if key + [EQ] <= s then
      var rest := s[|key| + 1..];
      Some(Unescape(rest[..LineEnd(rest)]))
    else if LineEnd(s) == |s| then None
    else Lookup(key, s[LineEnd(s) + 1..])
  }

  /** The text after a key and value were appended. */
  function Added(s: Bytes, key: Bytes, v: Bytes): Bytes {
    (if s == [] then [] else s + [LF]) + key + [EQ] + Escape(v)
  }

  lemma {:induction false} LineEndIs(s: Bytes, n: nat)
    requires n <= |s| && (forall i | 0 <= i < n :: !EndsLine(s[i])) && (n < |s| ==> EndsLine(s[n]))
    ensures LineEnd(s) == n
  {
    if n > 0 { LineEndIs(s[1..], n - 1); }
  }

  /** A line feed and more text do not change the lines before. */
  lemma LineEndBefore(s: Bytes, t: Bytes)
    ensures LineEnd(s + [LF] + t) == LineEnd(s)
  {
    LineEndIs(s + [LF] + t, LineEnd(s));
  }

  lemma {:induction false} PrefixBefore(key: Bytes, s: Bytes, t: Bytes)
    requires Legal(key)
    ensures key + [EQ] <= s + [LF] + t <==> key + [EQ] <= s
  {
    var u := s + [LF] + t;
    if key == [] {
      assert [] + [EQ] <= u <==> u[0] == EQ;
    } else {
      assert key[0] in key && forall c | c in key[1..] :: c in key;
      PrefixHead(key, u);
      if s != [] {
        PrefixHead(key, s);
        assert u[1..] == s[1..] + [LF] + t;
        PrefixBefore(key[1..], s[1..], t);
      }
    }
  }

  lemma PrefixHead(key: Bytes, u: Bytes)
    requires key != [] && u != []
    ensures key + [EQ] <= u <==> key[0] == u[0] && key[1..] + [EQ] <= u[1..]
  {
    assert key + [EQ] == [key[0]] + (key[1..] + [EQ]);
    assert u == [u[0]] + u[1..];
  }

  /** Text appended after a line feed is searched only when the key is not found before. */
  lemma {:induction false} LookupAppend(key: Bytes, s: Bytes, t: Bytes)
    requires Legal(key)
    ensures Lookup(key, s + [LF] + t) == if Lookup(key, s).Some? then Lookup(key, s) else Lookup(key, t)
    decreases |s|
  {
    hide Unescape;
    var u := s + [LF] + t;
    PrefixBefore(key, s, t);
    LineEndBefore(s, t);
    if s == [] {
      assert u == [LF] + t && LineEnd(u) == 0 && u[1..] == t;
    } else if key + [EQ] <= s {
      var rest := s[|key| + 1..];
      assert u[|key| + 1..] == rest + [LF] + t;
      LineEndBefore(rest, t);
      assert (rest + [LF] + t)[..LineEnd(rest)] == rest[..LineEnd(rest)];
    } else if LineEnd(s) == |s| {
      assert u[|s| + 1..] == t;
    } else {
      var next := s[LineEnd(s) + 1..];
      assert u[LineEnd(s) + 1..] == next + [LF] + t;
      LookupAppend(key, next, t);
    }
  }

  lemma LookupLine(key: Bytes, key': Bytes, v: Bytes)
    requires Legal(key) && Legal(key')
    ensures Lookup(key', key + [EQ] + Escape(v)) == if key' == key then Some(v) else None
  {
    hide Escape, Scanned, LineEnd;
    var t := key + [EQ] + Escape(v);
    EscapeClean(v);
    ScanEscape(v);
    NotEnding(key, v);
    LineEndIs(t, |t|);
    LineEndIs(Escape(v), |Escape(v)|);
    if key' == key {
      assert t[|key| + 1..] == Escape(v) && Escape(v)[..|Escape(v)|] == Escape(v);
      assert t[..|key| + 1] == key + [EQ];
    } else {
      OtherKey(key, key', t);
    }
  }

  lemma NotEnding(key: Bytes, v: Bytes)
    requires Legal(key)
    ensures forall i | 0 <= i < |key + [EQ] + Escape(v)| :: !EndsLine((key + [EQ] + Escape(v))[i])
    ensures forall i | 0 <= i < |Escape(v)| :: !EndsLine(Escape(v)[i])
  {
    hide Escape;
    EscapeClean(v);
    var e := Escape(v);
    forall i | 0 <= i < |e|
      ensures !EndsLine(e[i])
    {
      assert e[i] in e;
    }
    forall i | 0 <= i < |key|
      ensures !EndsLine(key[i])
    {
      assert key[i] in key;
    }
  }

  lemma OtherKey(key: Bytes, key': Bytes, t: Bytes)
    requires Legal(key) && Legal(key') && key + [EQ] <= t && key != key'
    ensures !(key' + [EQ] <= t)
  {
    if key' + [EQ] <= t { SameKey(key, key', t); }
  }

  function FirstEq(t: Bytes): nat { if t == [] || t[0] == EQ then 0 else 1 + FirstEq(t[1..]) }

  lemma {:induction false} KeyEndsAtEq(key: Bytes, t: Bytes)
    requires Legal(key) && key + [EQ] <= t
    ensures FirstEq(t) == |key|
  {
    if key != [] {
      assert forall c | c in key[1..] :: c in key;
      assert key[0] in key && t[0] == (key + [EQ])[0] == key[0];
      PrefixHead(key, t);
      KeyEndsAtEq(key[1..], t[1..]);
    } else {
      assert t[0] == ([] + [EQ])[0];
    }
  }

  lemma SameKey(key: Bytes, key': Bytes, t: Bytes)
    requires Legal(key) && Legal(key') && key + [EQ] <= t && key' + [EQ] <= t
    ensures key == key'
  {
    KeyEndsAtEq(key, t); KeyEndsAtEq(key', t);
    assert key == t[..|key|] && key' == t[..|key'|];
  }

  /** After a key was added: a fresh key has its value; every other lookup, and that of a key already there, is
      unchanged. */
  lemma LookupAdded(s: Bytes, key: Bytes, v: Bytes, key': Bytes)
    requires Legal(key) && Legal(key')
    ensures Lookup(key', Added(s, key, v)) ==
      if key' == key && Lookup(key, s) == None then Some(v) else Lookup(key', s)
  {
    LookupLine(key, key', v);
    if s == [] {
      assert Added(s, key, v) == key + [EQ] + Escape(v);
    } else {
      assert Added(s, key, v) == s + [LF] + (key + [EQ] + Escape(v));
      LookupAppend(key', s, key + [EQ] + Escape(v));
    }
    hide Lookup, Escape;
  }
}
