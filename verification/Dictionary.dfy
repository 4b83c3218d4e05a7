/** The fixed-capacity dictionary: a zero-terminated text in a byte array. */
module Dictionary {
  import opened Wrappers
  import opened Blocks
  import opened DictionaryText

  /** The bytes before the first zero. */
  function Upto0(s: Bytes): Bytes { if s == [] || s[0] == 0 then [] else [s[0]] + Upto0(s[1..]) }

  lemma {:induction false} Upto0Is(s: Bytes, n: nat)
    requires n < |s| && s[n] == 0 && forall i | 0 <= i < n :: s[i] != 0
    ensures Upto0(s) == s[..n]
  {
    if n > 0 {
      Upto0Is(s[1..], n - 1);
      assert s[..n] == [s[0]] + s[1..][..n - 1];
    }
  }

  lemma {:induction false} Upto0Shape(s: Bytes)
    ensures var t := Upto0(s); t <= s && (forall i | 0 <= i < |t| :: t[i] != 0) && (|t| < |s| ==> s[|t|] == 0)
  {
    if s != [] && s[0] != 0 { Upto0Shape(s[1..]); }
  }

  lemma {:induction false} Upto0Found(s: Bytes, i: nat)
    requires i < |s| && s[i] == 0
    ensures |Upto0(s)| <= i
  {
    if i > 0 { Upto0Found(s[1..], i - 1); }
  }

  class Dictionary {
    const d: array<bv8>

    /** The text is terminated within the array. */
    ghost predicate Valid()
      reads d
    {
      exists i | 0 <= i < d.Length :: d[i] == 0
    }

    ghost function Text(): (t: Bytes)
      reads d
    {
      Upto0(d[..])
    }

    constructor (capacity: nat)
      requires 0 < capacity
      ensures Valid() && d.Length == capacity && fresh(d) && Text() == []
    {
      d := new bv8[capacity](i => 0);
      new;
      Upto0Is(d[..], 0);
    }

    lemma TextShape()
      requires Valid()
      ensures |Text()| < d.Length && d[|Text()|] == 0 && d[..|Text()|] == Text()
      ensures forall i | 0 <= i < |Text()| :: d[i] != 0
    {
      Upto0Shape(d[..]);
      var i :| 0 <= i < d.Length && d[i] == 0;
      Upto0Found(d[..], i);
    }

    method SizeBytes() returns (n: nat)
      requires Valid()
      ensures n == |Text()|
    {
      for i := 0 to d.Length
        invariant forall j | 0 <= j < i :: d[j] != 0
      {
        if d[i] == 0 {
          Upto0Is(d[..], i);
          return i;
        }
      }
      assert false;
    }

    /** One byte of an append that began at i: when the array is full the text is cut back and the append fails. */
    method Put(i: nat, j: nat, c: bv8) returns (ok: bool)
      requires i <= j < d.Length
      modifies d
      ensures ok == (j + 1 < d.Length)
      ensures forall k | 0 <= k < j && k != i :: d[k] == old(d[k])
      ensures ok ==> d[j] == c && (i < j ==> d[i] == old(d[i]))
      ensures !ok ==> d[i] == 0
    {
      d[j] := c;
      if j + 1 == d.Length {
        d[i] := 0;
        return false;
      }
      return true;
    }

    /** A run of bytes of an append: text is what the array holds from 0 to j. */
    method PutAll(i: nat, j: nat, run: Bytes, ghost text: Bytes) returns (ok: bool)
      requires i <= j < d.Length && d[..j] == text
      modifies d
      ensures ok == (j + |run| < d.Length)
      ensures ok ==> d[..j + |run|] == text + run
      ensures !ok ==> d[..i] == text[..i] && d[i] == 0
    {
      for k := 0 to |run|
        invariant j + k < d.Length && d[..j + k] == text + run[..k]
      {
        ghost var before := d[..j + k];
        ok := Put(i, j + k, run[k]);
        if !ok {
          assert d[..i] == before[..i] == text[..i];
          return false;
        }
        assert d[..j + k + 1] == text + run[..k] + [run[k]];
        assert run[..k + 1] == run[..k] + [run[k]];
      }
      assert run[..|run|] == run;
      return true;
    }

    /** Appends key=value, or leaves the text as it was if there is no room. */
    method Add(key: Bytes, v: Bytes) returns (ok: bool)
      requires Valid() && Legal(key)
      modifies d
      ensures Valid() && ok == (|Added(old(Text()), key, v)| < d.Length)
      ensures Text() == if ok then Added(old(Text()), key, v) else old(Text())
    {
      hide Upto0, Escape;
      TextShape();
      NoZeros(Text(), key, v);
      var i := SizeBytes();
      ghost var s, whole := Text(), Added(Text(), key, v);
      var j := i;
      assert d[..j] == s && s == whole[..j];
      if j > 0 {
        ok := PutAll(i, j, [LF], s);
        if !ok { Restored(i, s); return; }
        j := j + 1;
        assert d[..j] == whole[..j];
      }
      ok := PutAll(i, j, key + [EQ], whole[..j]);
      if !ok { Restored(i, s); return; }
      j := j + |key| + 1;
      assert d[..j] == whole[..j] && whole[..j] + Escape(v) == whole;
      ok, j := PutValue(i, j, v, whole[..j]);
      if !ok { Restored(i, s); return; }
      d[j] := 0;
      Restored(j, whole);
    }

    method PutValue(i: nat, j0: nat, v: Bytes, ghost head: Bytes) returns (ok: bool, j: nat)
      requires i <= j0 < d.Length && d[..j0] == head
      modifies d
      ensures ok == (j0 + |Escape(v)| < d.Length)
      ensures ok ==> j == j0 + |Escape(v)| && d[..j] == head + Escape(v)
      ensures !ok ==> d[..i] == head[..i] && d[i] == 0
    {
      hide Escape, EscapeByte;
      j := j0;
      assert Escape([]) == [] by { EmptyEscape(); }
      for k := 0 to |v|
        invariant i <= j < d.Length && j == j0 + |Escape(v[..k])| && d[..j] == head + Escape(v[..k])
      {
        EscapeNext(v, k);
        EscapeLonger(v, k + 1);
        ghost var text := d[..j];
        ok := PutAll(i, j, EscapeByte(v[k]), text);
        if !ok {
          assert text[..i] == head[..i];
          return;
        }
        j := j + |EscapeByte(v[k])|;
      }
      assert v[..|v|] == v;
      ok := true;
    }

    lemma Restored(i: nat, s: Bytes)
      requires i == |s| < d.Length && d[..i] == s && d[i] == 0 && forall c | c in s :: c != 0
      ensures Valid() && Text() == s
    {
      assert forall k | 0 <= k < i :: d[k] == s[k] && s[k] in s;
      Upto0Is(d[..], i);
    }

    /** Compares the key with the text at p, and stops at the first difference. */
    method MatchKey(key: Bytes, p: nat) returns (q: nat, found: bool)
      requires Valid() && Legal(key) && p < |Text()|
      ensures p <= q <= |Text()| && q - p <= |key| && Text()[p..q] == key[..q - p]
      ensures found == (key + [EQ] <= Text()[p..])
      ensures found ==> q == p + |key| && q < |Text()|
    {
      hide Upto0;
      TextShape();
      ghost var s := Text();
      q := p;
      while q - p < |key| && d[q] != 0
        invariant p <= q <= |s| && q - p <= |key| && s[p..q] == key[..q - p]
      {
        if d[q] != key[q - p] { break; }
        assert s[p..q + 1] == s[p..q] + [d[q]] && key[..q + 1 - p] == key[..q - p] + [key[q - p]];
        q := q + 1;
        if q == d.Length {
          assert false;
        }
      }
      found := q - p == |key| && d[q] == EQ;
      MatchMeans(key, s, p, q, d[q]);
    }

    /** Unescapes the value at p into dest. */
    method ScanValue(p0: nat, dest: array<bv8>, destlen: nat) returns (r: int)
      requires Valid() && p0 <= |Text()| && 0 < destlen <= dest.Length && dest != d
      modifies dest
      ensures var rest := Text()[p0..]; Delivered(Unescape(rest[..LineEnd(rest)]), dest[..], destlen, r)
      ensures dest[destlen..] == old(dest[destlen..])
    {
      hide Upto0, Scanned;
      TextShape();
      ghost var s := Text();
      ghost var rest := s[p0..];
      ghost var line := rest[..LineEnd(rest)];
      var p, j, esc := p0, 0, false;
      EmptyScan();
      while d[p] != 0 && d[p] != CR && d[p] != LF
        invariant p0 <= p <= p0 + |line| && j < destlen
        invariant Scanned(line[..p - p0]) == Scan(dest[..j], esc) && dest[destlen..] == old(dest[destlen..])
        decreases p0 + |line| - p
      {
        assert p < |s| && d[p] == rest[p - p0];
        assert p - p0 < |line|;
        assert line[..p - p0 + 1] == line[..p - p0] + [d[p]];
        ScanMore(line[..p - p0], d[p]);
        ghost var before := dest[..j];
        if esc {
          esc := false;
          dest[j] := Unletter(d[p]);
          j := j + 1;
          assert dest[..j] == before + [Unletter(d[p])];
          if j == destlen {
            Truncated(line, p - p0 + 1, dest[..j]);
            dest[j - 1] := 0;
            return j - 1;
          }
        } else if d[p] == BACKSLASH {
          esc := true;
        } else {
          dest[j] := d[p];
          j := j + 1;
          assert dest[..j] == before + [d[p]];
          if j == destlen {
            Truncated(line, p - p0 + 1, dest[..j]);
            dest[j - 1] := 0;
            return j - 1;
          }
        }
        p := p + 1;
        if p == d.Length {
          assert false;
        }
      }
      LineStops(rest, p - p0, d[p]);
      assert line[..p - p0] == line;
      dest[j] := 0;
      return j;
    }

    /** Goes on to the end of the line. */
    method SkipLine(q0: nat) returns (q: nat)
      requires Valid() && q0 <= |Text()|
      ensures q == q0 + LineEnd(Text()[q0..])
    {
      hide Upto0;
      TextShape();
      ghost var s := Text();
      ghost var rest := s[q0..];
      q := q0;
      while d[q] != 0 && d[q] != CR && d[q] != LF
        invariant q0 <= q <= q0 + LineEnd(rest)
        decreases q0 + LineEnd(rest) - q
      {
        assert q < |s| && d[q] == rest[q - q0];
        q := q + 1;
        if q == d.Length {
          assert false;
        }
      }
      LineStops(rest, q - q0, d[q]);
    }

    /** Looks the key up; dest always ends up terminated, and no more of it is written than destlen allows. */
    method Get(key: Bytes, dest: array<bv8>, destlen: nat) returns (r: int)
      requires Valid() && Legal(key) && destlen <= dest.Length && dest != d
      modifies dest
      ensures Text() == old(Text()) && dest[destlen..] == old(dest[destlen..])
      ensures destlen == 0 ==> r == -1 && dest[..] == old(dest[..])
      ensures destlen > 0 ==>
        match Lookup(key, Text())
        case None => r == -1 && dest[0] == 0
        case Some(v) => Delivered(v, dest[..], destlen, r)
    {
      hide Upto0, Lookup, Unescape, Delivered, LineEnd, Legal;
      if destlen == 0 {
        return -1;
      }
      TextShape();
      ghost var s := Text();
      var p := 0;
      assert s[0..] == s;
      while d[p] != 0
        invariant p <= |s| && Lookup(key, s) == Lookup(key, s[p..])
        invariant dest[..] == old(dest[..])
        decreases |s| - p
      {
        assert p < |s|;
        var q, found := MatchKey(key, p);
        LookupHere(key, s, p, q);
        if found {
          r := ScanValue(q + 1, dest, destlen);
          return;
        }
        p := SkipLine(q);
        if d[p] == 0 {
          break;
        }
        p := p + 1;
        if p == d.Length {
          assert false;
        }
      }
      NothingLeft(key, s, p);
      dest[0] := 0;
      return -1;
    }

    /** Loads a C string, cut to the capacity if it is longer. */
    method Load(s: Bytes) returns (fits: bool)
      requires Valid() && forall c | c in s :: c != 0
      modifies d
      ensures Valid() && fits == (|s| < d.Length) && Text() == if fits then s else s[..d.Length - 1]
    {
      var more := true;
      for i := 0 to d.Length
        invariant more == (i <= |s|)
        invariant forall j | 0 <= j < i :: d[j] == if j < |s| then s[j] else 0
      {
        if more {
          if i < |s| {
            d[i] := s[i];
          } else {
            d[i] := 0;
            more := false;
          }
        } else {
          d[i] := 0;
        }
      }
      d[d.Length - 1] := 0;
      var n := if |s| < d.Length then |s| else d.Length - 1;
      forall j | 0 <= j < n ensures d[..][j] != 0 { assert s[j] in s; }
      Upto0Is(d[..], n);
      fits := !more;
    }

    /** Loading a dictionary's own text reproduces it. */
    method Reload(from: Dictionary) returns (fits: bool)
      requires Valid() && from.Valid() && from != this && from.d != d && from.d.Length == d.Length
      modifies d
      ensures Valid() && fits && Text() == from.Text()
    {
      from.TextShape();
      var n := from.SizeBytes();
      assert forall c | c in from.d[..n] :: c != 0;
      fits := Load(from.d[..n]);
    }
  }

  lemma EscapeNext(v: Bytes, k: nat)
    requires k < |v|
    ensures Escape(v[..k + 1]) == Escape(v[..k]) + EscapeByte(v[k])
  {
    assert v[..k + 1][..k] == v[..k];
  }

  /** What get hands back for the value v: as much of it as fits before a terminating zero. */
  ghost predicate Delivered(v: Bytes, dest: Bytes, destlen: nat, r: int) {
    && 0 < destlen <= |dest| && r == (if |v| < destlen then |v| else destlen - 1)
    && dest[..r] == v[..r] && dest[r] == 0
  }

  lemma LookupHere(key: Bytes, s: Bytes, p: nat, q: nat)
    requires Legal(key) && p <= q <= |s| && p < |s| && q - p <= |key| && s[p..q] == key[..q - p]
    ensures if key + [EQ] <= s[p..] then
        && p + |key| < |s|
        && (var rest := s[p + |key| + 1..]; Lookup(key, s[p..]) == Some(Unescape(rest[..LineEnd(rest)])))
      else
        var n := q + LineEnd(s[q..]);
        Lookup(key, s[p..]) == if n < |s| then Lookup(key, s[n + 1..]) else None
  {
    hide Unescape;
    var t := s[p..];
    if key + [EQ] <= t {
      assert t[|key| + 1..] == s[p + |key| + 1..];
    } else {
      var n := LineEnd(s[q..]);
      forall i | 0 <= i < q - p
        ensures !EndsLine(t[i])
      {
        assert t[i] == s[p..q][i] == key[i] && key[i] in key;
      }
      forall i | q - p <= i < q - p + n
        ensures !EndsLine(t[i])
      {
        assert t[i] == s[q..][i - (q - p)];
      }
      LineEndIs(t, q - p + n);
      if q + n < |s| { assert t[q - p + n + 1..] == s[q + n + 1..]; }
    }
  }

  lemma NothingLeft(key: Bytes, s: Bytes, p: nat)
    requires p == |s|
    ensures Lookup(key, s[p..]) == None
  {
  }

  lemma EmptyScan()
    ensures Scanned([]) == Scan([], false)
  {
  }

  lemma Truncated(line: Bytes, n: nat, out: Bytes)
    requires n <= |line| && Scanned(line[..n]).out == out
    ensures out <= Unescape(line)
  {
    ScanPrefix(line, n);
  }

  lemma LineStops(rest: Bytes, n: nat, c: bv8)
    requires n <= LineEnd(rest) && (if n < |rest| then c == rest[n] && EndsLine(c) else c == 0)
    ensures n == LineEnd(rest)
  {
  }

  /** Where the comparison stopped decides whether the key starts the text at p. */
  lemma MatchMeans(key: Bytes, s: Bytes, p: nat, q: nat, c: bv8)
    requires p <= q <= |s| && q - p <= |key| && s[p..q] == key[..q - p]
    requires c == if q < |s| then s[q] else 0
    requires q - p < |key| ==> c == 0 || c != key[q - p]
    requires forall i | 0 <= i < |s| :: s[i] != 0
    requires Legal(key)
    ensures (q - p == |key| && c == EQ) <==> key + [EQ] <= s[p..]
    ensures q - p == |key| && c == EQ ==> q < |s|
  {
    var n := q - p;
    if n == |key| {
      if q < |s| { assert s[p..][..n + 1] == s[p..q] + [s[q]]; }
    } else {
      assert key[n] in key;
      assert (key + [EQ])[n] == key[n];
      assert q < |s| ==> s[p..][n] == s[q];
    }
  }

  lemma EmptyEscape()
    ensures Escape([]) == []
  {
  }

  lemma {:induction false} EscapeLonger(v: Bytes, k: nat)
    requires k <= |v|
    ensures |Escape(v[..k])| <= |Escape(v)|
    decreases |v| - k
  {
    hide Escape, EscapeByte;
    if k < |v| {
      EscapeNext(v, k);
      EscapeLonger(v, k + 1);
    } else {
      assert v[..k] == v;
    }
  }

  lemma NoZeros(s: Bytes, key: Bytes, v: Bytes)
    requires Legal(key) && forall i | 0 <= i < |s| :: s[i] != 0
    ensures forall c | c in s :: c != 0
    ensures forall c | c in Added(s, key, v) :: c != 0
  {
    hide Escape;
    EscapeClean(v);
  }
}
