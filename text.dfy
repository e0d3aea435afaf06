/** Text primitives the pricebook search relies on: Python's whitespace test
    and `str.strip`, lower-casing restricted to ASCII letters, and substring
    containment (Python's `in` / a literal `str.contains`). */
module Text {

  /** Python's `str.isspace` for a single character: the ASCII controls
      TAB..CR and FS..US, SPACE, NEL, NBSP and the Unicode space separators. */
  predicate IsSpace(c: char)
  {
    || c == ' '
    || ('\t' <= c <= '\r')
    || ('\U{1c}' <= c <= '\U{1f}')
    || c == '\U{85}'
    || c == '\U{a0}'
    || c == '\U{1680}'
    || ('\U{2000}' <= c <= '\U{200a}')
    || c == '\U{2028}'
    || c == '\U{2029}'
    || c == '\U{202f}'
    || c == '\U{205f}'
    || c == '\U{3000}'
  }

  /** Drops the longest all-whitespace prefix. */
  function TrimStart(s: string): (r: string)
    ensures |r| <= |s| && r == s[|s| - |r|..]
    ensures r == [] || !IsSpace(r[0])
    ensures forall i :: 0 <= i < |s| - |r| ==> IsSpace(s[i])
  {
    if s != [] && IsSpace(s[0]) then TrimStart(s[1..]) else s
  }

  /** Drops the longest all-whitespace suffix. */
  function TrimEnd(s: string): (r: string)
    ensures r <= s
    ensures r == [] || !IsSpace(r[|r| - 1])
    ensures forall i :: |r| <= i < |s| ==> IsSpace(s[i])
  {
    if s != [] && IsSpace(s[|s| - 1]) then TrimEnd(s[..|s| - 1]) else s
  }

  /** Python's `str.strip()` with no argument. */
  function Strip(s: string): string
  {
    TrimEnd(TrimStart(s))
  }

  /** The emptiness test `query.strip() == ""`. */
  predicate IsBlank(s: string)
  {
    Strip(s) == ""
  }

  /** A string strips to nothing exactly when every character of it is
      whitespace; in particular "" and "   " are blank. */
  lemma BlankIffAllSpace(s: string)
    ensures IsBlank(s) <==> forall i :: 0 <= i < |s| ==> IsSpace(s[i])
  {
  }

  /** What Strip keeps is a contiguous piece of the input that neither starts
      nor ends with whitespace. */
  lemma StripKeepsInfix(s: string)
    ensures var r := Strip(s);
      && (exists i :: OccursAt(s, r, i))
      && (r == [] || (!IsSpace(r[0]) && !IsSpace(r[|r| - 1])))
  {
    var t := TrimStart(s);
    var r := TrimEnd(t);
    assert r == Strip(s);
    StripOccurs(s, t, r);
    assert OccursAt(s, Strip(s), |s| - |t|);
    StripEnds(t, r);
  }

  lemma StripEnds(t: string, r: string)
    requires t == [] || !IsSpace(t[0])
    requires r <= t
    requires r == [] || !IsSpace(r[|r| - 1])
    ensures r == [] || (!IsSpace(r[0]) && !IsSpace(r[|r| - 1]))
  {
    if r != [] {
      assert r[0] == t[0];
    }
  }

  lemma StripOccurs(s: string, t: string, r: string)
    requires |t| <= |s| && t == s[|s| - |t|..]
    requires r <= t
    ensures OccursAt(s, r, |s| - |t|)
  {
    var i := |s| - |t|;
    assert s[i..i + |r|] == t[..|r|];
  }

  /** ASCII lower-casing of one character; every other character is kept. */
  function LowerChar(c: char): char
  {
    if 'A' <= c <= 'Z' then (c as int + ('a' as int - 'A' as int)) as char else c
  }

  /** Python's `str.lower()` restricted to ASCII letters. */
  function Lower(s: string): string
  {
    seq(|s|, i requires 0 <= i < |s| => LowerChar(s[i]))
  }

  /** Lower-casing leaves no upper-case ASCII letter and is idempotent, so
      lower-casing the query once and each cell once is enough. */
  lemma LowerIsIdempotent(s: string)
    ensures forall i :: 0 <= i < |s| ==> !('A' <= Lower(s)[i] <= 'Z')
    ensures Lower(Lower(s)) == Lower(s)
  {
  }

  /** Substring containment by scanning: `needle` is a prefix of `hay` or of
      one of its suffixes. The empty needle is contained in every string. */
  predicate Contains(hay: string, needle: string)
  {
    needle <= hay || (hay != [] && Contains(hay[1..], needle))
  }

  /** `needle` occurs in `hay` starting at position `i`. */
  ghost predicate OccursAt(hay: string, needle: string, i: int)
  {
    0 <= i && i + |needle| <= |hay| && hay[i..i + |needle|] == needle
  }

  /** The scan agrees with the positional definition of a substring. */
  lemma {:induction false} ContainsIffOccurs(hay: string, needle: string)
    ensures Contains(hay, needle) <==> exists i :: OccursAt(hay, needle, i)
  {
    if needle <= hay {
      assert OccursAt(hay, needle, 0);
    } else if hay == [] {
      assert |needle| > 0;
    } else {
      ContainsIffOccurs(hay[1..], needle);
      if Contains(hay[1..], needle) {
        var i :| OccursAt(hay[1..], needle, i);
        assert hay[i + 1..i + 1 + |needle|] == hay[1..][i..i + |needle|];
        assert OccursAt(hay, needle, i + 1);
      }
      if exists i :: OccursAt(hay, needle, i) {
        var i :| OccursAt(hay, needle, i);
        assert i != 0;
        assert hay[1..][i - 1..i - 1 + |needle|] == hay[i..i + |needle|];
        assert OccursAt(hay[1..], needle, i - 1);
      }
    }
  }

  /** A non-empty needle can only be found where its first character is. */
  lemma {:induction false} ContainsNeedsFirstChar(hay: string, needle: string)
    requires |needle| > 0 && Contains(hay, needle)
    ensures needle[0] in hay
  {
    if !(needle <= hay) {
      ContainsNeedsFirstChar(hay[1..], needle);
    }
  }

  /** Lower-casing a character keeps it whitespace or non-whitespace. */
  lemma LowerCharKeepsSpace(c: char)
    ensures IsSpace(LowerChar(c)) == IsSpace(c)
  {
  }

  lemma {:induction false} LowerKeepsAllSpace(s: string)
    ensures (forall i :: 0 <= i < |s| ==> IsSpace(s[i]))
        <==> (forall i :: 0 <= i < |Lower(s)| ==> IsSpace(Lower(s)[i]))
  {
    forall i | 0 <= i < |s|
      ensures IsSpace(Lower(s)[i]) == IsSpace(s[i])
    {
      assert Lower(s)[i] == LowerChar(s[i]);
      LowerCharKeepsSpace(s[i]);
    }
  }

  /** Lower-casing never turns whitespace into non-whitespace or the
      reverse, so it does not change whether a query is blank. */
  lemma LowerKeepsBlankness(s: string)
    ensures IsBlank(Lower(s)) <==> IsBlank(s)
  {
    BlankIffAllSpace(s);
    BlankIffAllSpace(Lower(s));
    LowerKeepsAllSpace(s);
  }
}
