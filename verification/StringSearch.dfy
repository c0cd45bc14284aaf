/** strnstr: bounded search for a string in a string. */
module StringSearch {

  import opened Machine

  /** `find` occurs at `i`, within the first `slen` characters and before the terminator. */
  ghost predicate OccursAt(s: string, find: string, slen: nat, i: nat) {
    i + |find| <= slen && i + |find| <= |s| && s[i..i + |find|] == find && forall k :: 0 <= k < i ==> s[k] != '\0'
  }

  /** All the memory the search may look at: `slen` characters, or fewer when a terminator comes first. */
  ghost predicate Readable(s: string, slen: nat) {
    slen <= |s| || exists k :: 0 <= k < |s| && s[k] == '\0'
  }

  /** strncmp against a string without terminator, as far as equality goes. */
  method SamePrefix(s: string, at: nat, find: string, slen: nat) returns (same: bool)
    requires Readable(s, slen) && at + |find| <= slen && at <= |s|
    requires forall k :: 0 <= k < at ==> s[k] != '\0'
    requires forall k :: 0 <= k < |find| ==> find[k] != '\0'
    ensures same <==> at + |find| <= |s| && s[at..at + |find|] == find
  {
    var k := 0;
    while k < |find|
      invariant 0 <= k <= |find| && at + k <= |s| && s[at..at + k] == find[..k]
    {
      assert forall j :: 0 <= j < at + k && j >= at ==> s[j] == s[at..at + k][j - at];
      if s[at + k] != find[k] {
        assert at + |find| <= |s| ==> s[at..at + |find|][k] == s[at + k];
        return false;
      }
      k := k + 1;
    }
    assert find[..k] == find;
    return true;
  }

  /** strnstr: the leftmost occurrence, none exactly when there is none; no character outside the readable ones is
      read. */
  method StrNStr(s: string, find: string, slen: nat) returns (r: Option<nat>)
    requires Readable(s, slen) && forall k :: 0 <= k < |find| ==> find[k] != '\0'
    ensures r.Some? ==> OccursAt(s, find, slen, r.value) && forall i :: 0 <= i < r.value ==> !OccursAt(s, find, slen, i)
    ensures r.None? ==> forall i: nat :: !OccursAt(s, find, slen, i)
  {
    if find == "" {
      assert OccursAt(s, find, slen, 0);
      return Some(0);
    }
    var c, rest := find[0], find[1..];
    var len := |rest|;
    var pos, left := 0, slen;
    while true
      invariant 0 <= pos <= |s| && left == slen - pos >= 0
      invariant forall k :: 0 <= k < pos ==> s[k] != '\0' && !OccursAt(s, find, slen, k)
      decreases left
    {
      if left < 1 {
        return None;
      }
      left := left - 1;
      var sc := s[pos];
      if sc == '\0' {
        NothingPastNul(s, find, slen, pos);
        return None;
      }
      pos := pos + 1;
      FirstThenRest(s, find, slen, pos - 1);
      if sc == c {
        if len > left {
          return None;
        }
        var same := SamePrefix(s, pos, rest, slen);
        if same {
          return Some(pos - 1);
        }
      }
    }
  }

  lemma NothingPastNul(s: string, find: string, slen: nat, z: nat)
    requires z < |s| && s[z] == '\0' && find != "" && forall k :: 0 <= k < |find| ==> find[k] != '\0'
    ensures forall i: nat :: i >= z ==> !OccursAt(s, find, slen, i)
  {
    forall i: nat | i >= z ensures !OccursAt(s, find, slen, i) {
      if i == z && i + |find| <= |s| {
        assert s[i..i + |find|][0] == s[z];
      }
    }
  }

  /** An occurrence is its first character followed by the rest. */
  lemma FirstThenRest(s: string, find: string, slen: nat, i: nat)
    requires find != "" && i < |s|
    ensures OccursAt(s, find, slen, i) <==>
      s[i] == find[0] && i + |find| <= slen && i + |find| <= |s| && s[i + 1..i + |find|] == find[1..] &&
      forall k :: 0 <= k < i ==> s[k] != '\0'
  {
    if i + |find| <= |s| {
      assert s[i..i + |find|] == [s[i]] + s[i + 1..i + |find|];
      assert find == [find[0]] + find[1..];
      if s[i..i + |find|] == find {
        assert s[i + 1..i + |find|] == s[i..i + |find|][1..];
      }
    }
  }
}
