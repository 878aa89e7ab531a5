/**
  The markup stripper applied to every step text of a directions reply:
  `html_instructions.replace(/<[^>]*>/g, "")` (src/App.tsx lines 78 and 86).

  The pattern matches a '<', then any run of characters other than '>', then
  a '>'. A search from left to right that starts a match at a '<' therefore
  ends it at the FIRST '>' after it, and a '<' with no '>' anywhere after it
  starts no match at all.
*/
module Tags {

  /** No '<' in `s` is followed, anywhere later, by a '>': nothing is left for the pattern to match. */
  predicate TagFree(s: string) {
    forall i, j :: 0 <= i < j < |s| && s[i] == '<' ==> s[j] != '>'
  }

  /** The position of the first '>' in `s`. */
  function FirstClose(s: string): (k: nat)
    requires '>' in s
    ensures k < |s| && s[k] == '>'
    ensures forall i :: 0 <= i < k ==> s[i] != '>'
  {
    if s[0] == '>' then 0
    else
      assert s == [s[0]] + s[1..];
      FirstClose(s[1..]) + 1
  }

  /**
    Removes every match of the tag pattern, scanning left to right: a '<'
    that has a '>' after it is dropped together with everything up to and
    including the first such '>'; every other character is kept.
  */
  function StripTags(s: string): (r: string)
    ensures |r| <= |s|
    ensures forall c :: c in r ==> c in s
    ensures TagFree(r)
    decreases |s|
  {
    if s == [] then ""
    else if s[0] == '<' && '>' in s[1..] then
      StripTags(s[FirstClose(s[1..]) + 2..])
    else
      var rest := StripTags(s[1..]);
      assert s[0] == '<' ==> '>' !in rest;
      [s[0]] + rest
  }

  /** Text the pattern cannot match is left as it is. */
  lemma {:induction false} StripTagsKeepsTagFree(s: string)
    requires TagFree(s)
    ensures StripTags(s) == s
    decreases |s|
  {
    if s != [] {
      if s[0] == '<' {
        forall k | 0 <= k < |s| - 1 ensures s[1..][k] != '>' {
          assert s[1..][k] == s[k + 1];
        }
      }
      assert TagFree(s[1..]) by {
        forall i, j | 0 <= i < j < |s| - 1 && s[1..][i] == '<' ensures s[1..][j] != '>' {
          assert s[1..][i] == s[i + 1] && s[1..][j] == s[j + 1];
        }
      }
      StripTagsKeepsTagFree(s[1..]);
    }
  }

  /** Text before the first '<' is kept as it is, and the rest is stripped on its own. */
  lemma {:induction false} StripTagsKeepsPlainPrefix(p: string, s: string)
    requires '<' !in p
    ensures StripTags(p + s) == p + StripTags(s)
    decreases |p|
  {
    if p != [] {
      assert (p + s)[0] == p[0] != '<';
      assert (p + s)[1..] == p[1..] + s;
      assert '<' !in p[1..] by {
        assert forall c :: c in p[1..] ==> c in p;
      }
      StripTagsKeepsPlainPrefix(p[1..], s);
      calc {
        StripTags(p + s);
        [p[0]] + StripTags(p[1..] + s);
        [p[0]] + (p[1..] + StripTags(s));
        { assert [p[0]] + p[1..] == p; }
        p + StripTags(s);
      }
    } else {
      assert p + s == s;
    }
  }

  /** A tag `<...>` whose body has no '>' is removed whole, and the text after it is stripped on its own. */
  lemma StripTagsDropsTag(t: string, s: string)
    requires '>' !in t
    ensures StripTags(['<'] + t + ['>'] + s) == StripTags(s)
  {
    var u := ['<'] + t + ['>'] + s;
    assert u[1..] == t + ['>'] + s;
    assert u[1..][|t|] == '>';
    var k := FirstClose(u[1..]);
    assert k == |t| by {
      assert forall i :: 0 <= i < |t| ==> u[1..][i] == t[i];
    }
    assert u[k + 2..] == s;
  }

  /** Stripping is idempotent. */
  lemma StripTagsIdempotent(s: string)
    ensures StripTags(StripTags(s)) == StripTags(s)
  {
    StripTagsKeepsTagFree(StripTags(s));
  }

  /** Stripping changes a text exactly when some '<' in it has a '>' after it. */
  lemma StripTagsUnchangedIff(s: string)
    ensures StripTags(s) == s <==> TagFree(s)
  {
    if TagFree(s) {
      StripTagsKeepsTagFree(s);
    }
  }

  /** A text without any '<' comes back unchanged. */
  lemma StripTagsWithoutOpen(s: string)
    requires '<' !in s
    ensures StripTags(s) == s
  {
    StripTagsKeepsTagFree(s);
  }
}
