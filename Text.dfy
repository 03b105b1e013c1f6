/** Text helpers for the case-insensitive title search: an ASCII lower-case
    mapping (standing in for Python's `str.lower`) and substring containment
    (Python's `needle in haystack` on strings). */
module Text {

  predicate IsUpper(c: char) {
    'A' <= c <= 'Z'
  }

  /** Lower-cases one ASCII letter; every other character is left alone. */
  function LowerChar(c: char): (d: char)
    ensures !IsUpper(d)
    ensures IsUpper(c) || d == c
  {
    if IsUpper(c) then (c as int + 32) as char else c
  }

  /** Lower-cases a string character by character. */
  function Lower(s: string): string
  {
    seq(|s|, i requires 0 <= i < |s| => LowerChar(s[i]))
  }

  /** `needle` occurs as a contiguous block somewhere in `hay`. */
  predicate Contains(hay: string, needle: string)
  {
    needle <= hay || (hay != [] && Contains(hay[1..], needle))
  }

  /** Contains agrees with the positional definition of a substring: there is
      an offset at which `needle` is a prefix of the rest of `hay`. */
  lemma {:induction false} ContainsAt(hay: string, needle: string)
    ensures Contains(hay, needle) <==> exists k :: 0 <= k <= |hay| && needle <= hay[k..]
  {
    if Contains(hay, needle) {
      if needle <= hay {
        assert hay[0..] == hay;
      } else {
        ContainsAt(hay[1..], needle);
        var k :| 0 <= k <= |hay[1..]| && needle <= hay[1..][k..];
        assert hay[1..][k..] == hay[k + 1..];
      }
    }
    if exists k :: 0 <= k <= |hay| && needle <= hay[k..] {
      var k :| 0 <= k <= |hay| && needle <= hay[k..];
      if k > 0 {
        assert hay[1..][k - 1..] == hay[k..];
        ContainsAt(hay[1..], needle);
      }
    }
  }

  /** For instance, ignoring case, "dune" occurs in "Dune Messiah" and not
      in "Foundation". */
  lemma DuneMessiahMatches()
    ensures Contains(Lower("Dune Messiah"), Lower("dune"))
  {
    assert Lower("dune") == "dune";
    assert Lower("Dune Messiah")[..4] == "dune";
  }

  lemma FoundationDoesNotMatch()
    ensures !Contains(Lower("Foundation"), Lower("dune"))
  {
    assert Lower("dune") == "dune";
    FoundationLowered();
    DuneNotInFoundation();
  }

  lemma FoundationLowered()
    ensures Lower("Foundation") == "foundation"
  {
    var s := "Foundation";
    assert LowerChar('F') == 'f';
    assert forall i :: 1 <= i < |s| ==> !IsUpper(s[i]);
  }

  lemma DuneNotInAtion()
    ensures !Contains("ation", "dune")
  {
    assert "n"[0] != 'd' && !Contains("n", "dune");
    assert "on"[0] != 'd' && !Contains("on", "dune");
    assert "ion"[0] != 'd' && !Contains("ion", "dune");
    assert "tion"[0] != 'd' && !Contains("tion", "dune");
    assert "ation"[0] != 'd' && !Contains("ation", "dune");
  }

  lemma DuneNotInFoundation()
    ensures !Contains("foundation", "dune")
  {
    DuneNotInAtion();
    assert "dation"[1] != 'u' && !Contains("dation", "dune");
    assert "ndation"[0] != 'd' && !Contains("ndation", "dune");
    assert "undation"[0] != 'd' && !Contains("undation", "dune");
    assert "oundation"[0] != 'd' && !Contains("oundation", "dune");
  }
}
