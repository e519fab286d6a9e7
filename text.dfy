/** String trimming as ECMAScript's `String.prototype.trim` performs it: code points
    of the WhiteSpace and LineTerminator productions are removed from both ends. */
module Text {

  /** The characters `trim` removes (ECMAScript WhiteSpace and LineTerminator). */
  predicate IsTrimmable(c: char)
  {
    c == '\t' || c == '\n' || c == '\U{B}' || c == '\U{C}' || c == '\r' || c == ' '
    || c == '\U{A0}' || c == '\U{1680}' || ('\U{2000}' <= c <= '\U{200A}')
    || c == '\U{2028}' || c == '\U{2029}' || c == '\U{202F}' || c == '\U{205F}'
    || c == '\U{3000}' || c == '\U{FEFF}'
  }

  /** Every character of `s` is trimmable, so `s.trim()` is empty. */
  predicate AllTrimmable(s: string)
  {
    forall k :: 0 <= k < |s| ==> IsTrimmable(s[k])
  }

  /** Drops the longest trimmable prefix. */
  function TrimStart(s: string): (r: string)
    ensures |r| <= |s| && r == s[|s| - |r|..]
    ensures forall k :: 0 <= k < |s| - |r| ==> IsTrimmable(s[k])
    ensures r != [] ==> !IsTrimmable(r[0])
  {
    if s != [] && IsTrimmable(s[0]) then TrimStart(s[1..]) else s
  }

  /** Drops the longest trimmable suffix. */
  function TrimEnd(s: string): (r: string)
    ensures |r| <= |s| && r == s[..|r|]
    ensures forall k :: |r| <= k < |s| ==> IsTrimmable(s[k])
    ensures r != [] ==> !IsTrimmable(r[|r| - 1])
  {
    if s != [] && IsTrimmable(s[|s| - 1]) then TrimEnd(s[..|s| - 1]) else s
  }

  /** `s.trim()`. */
  function Trim(s: string): string
  {
    TrimEnd(TrimStart(s))
  }

  /** The trimmed string is the slice of `s` that remains after removing a
      trimmable prefix and a trimmable suffix. */
  lemma TrimIsCore(s: string)
    ensures var lead := |s| - |TrimStart(s)|;
      lead + |Trim(s)| <= |s|
      && Trim(s) == s[lead..lead + |Trim(s)|]
      && (forall k :: 0 <= k < lead ==> IsTrimmable(s[k]))
      && (forall k :: lead + |Trim(s)| <= k < |s| ==> IsTrimmable(s[k]))
  {
    var t := TrimStart(s);
    var lead := |s| - |t|;
    var r := TrimEnd(t);
    assert t == s[lead..];
    assert r == t[..|r|];
    forall k | lead + |r| <= k < |s| ensures IsTrimmable(s[k]) {
      assert s[k] == t[k - lead];
    }
  }

  /** The trimmed string neither starts nor ends with a trimmable character. */
  lemma TrimEnds(s: string)
    ensures Trim(s) != [] ==> !IsTrimmable(Trim(s)[0]) && !IsTrimmable(Trim(s)[|Trim(s)| - 1])
  {
    var t := TrimStart(s);
    var r := TrimEnd(t);
    if r != [] {
      assert r[0] == t[0];
    }
  }

  /** `s.trim() === ""` exactly when every character of `s` is trimmable. */
  lemma TrimEmptyIff(s: string)
    ensures Trim(s) == [] <==> AllTrimmable(s)
  {
    var t := TrimStart(s);
    var lead := |s| - |t|;
    if Trim(s) == [] {
      assert AllTrimmable(t[0..]);
      forall k | 0 <= k < |s| ensures IsTrimmable(s[k]) {
        if k < lead {
          assert s[..lead][k] == s[k];
        } else {
          assert t[0..][k - lead] == s[k];
        }
      }
    } else {
      assert !IsTrimmable(Trim(s)[0]);
      assert Trim(s)[0] == t[0] == s[lead];
    }
  }

  /** Trimming twice is trimming once. */
  lemma TrimIdempotent(s: string)
    ensures Trim(Trim(s)) == Trim(s)
  {
    var r := Trim(s);
    TrimEnds(s);
    if r != [] {
      assert TrimStart(r) == r;
      assert TrimEnd(r) == r;
    }
  }
}
