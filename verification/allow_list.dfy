/** The save path's access check (`isAllowedIP` in backend/main.go). */
module AllowList {

  /** `sub` occurs in `s` starting at index `i`. */
  predicate OccursAt(s: string, sub: string, i: int) {
    0 <= i && i + |sub| <= |s| && s[i..i + |sub|] == sub
  }

  /** `strings.Contains(s, sub)`, scanning start positions left to right. */
  function Contains(s: string, sub: string): (r: bool)
    ensures r <==> exists i :: OccursAt(s, sub, i)
    decreases |s|
  {
    if sub <= s then
      assert OccursAt(s, sub, 0);
      true
    else if |s| == 0 then
      assert forall i :: !OccursAt(s, sub, i);
      false
    else
      var r := Contains(s[1..], sub);
      assert forall i :: OccursAt(s[1..], sub, i) <==> OccursAt(s, sub, i + 1) by {
        forall i ensures OccursAt(s[1..], sub, i) <==> OccursAt(s, sub, i + 1) {
          if 0 <= i && i + |sub| <= |s[1..]| {
            assert s[1..][i..i + |sub|] == s[i + 1..i + 1 + |sub|];
          }
        }
      }
      assert !OccursAt(s, sub, 0);
      assert (exists i :: OccursAt(s, sub, i)) ==> exists i :: OccursAt(s[1..], sub, i) by {
        if exists i :: OccursAt(s, sub, i) {
          var i :| OccursAt(s, sub, i);
          assert i > 0;
          assert OccursAt(s[1..], sub, i - 1);
        }
      }
      r
  }

  /**
    The client address is allowed when some configured entry occurs in it,
    checking the entries in configuration order.
   */
  function IsAllowedIP(allowed: seq<string>, ip: string): (r: bool)
    ensures r <==> exists k :: 0 <= k < |allowed| && Contains(ip, allowed[k])
  {
    if |allowed| == 0 then false
    else if Contains(ip, allowed[0]) then true
    else
      var r := IsAllowedIP(allowed[1..], ip);
      assert forall k :: 1 <= k < |allowed| ==> allowed[k] == allowed[1..][k - 1];
      r
  }

  /** An empty allow-list admits no client. */
  lemma EmptyListDeniesAll(ip: string)
    ensures !IsAllowedIP([], ip)
  {
  }

  /** An empty entry occurs in every address, so it admits every client. */
  lemma EmptyEntryAllowsAll(allowed: seq<string>, ip: string)
    requires "" in allowed
    ensures IsAllowedIP(allowed, ip)
  {
    var k :| 0 <= k < |allowed| && allowed[k] == "";
    assert OccursAt(ip, "", 0);
  }

  /** A client whose address is itself an entry is admitted, and so is any address that extends an entry. */
  lemma EntryInsideAddressAllows(allowed: seq<string>, prefix: string, entry: string, suffix: string)
    requires entry in allowed
    ensures IsAllowedIP(allowed, prefix + entry + suffix)
  {
    var ip := prefix + entry + suffix;
    assert ip[|prefix|..|prefix| + |entry|] == entry;
    assert OccursAt(ip, entry, |prefix|);
  }

  /** Joining two allow-lists admits exactly the clients either one admits. */
  lemma AllowedConcat(a: seq<string>, b: seq<string>, ip: string)
    ensures IsAllowedIP(a + b, ip) <==> IsAllowedIP(a, ip) || IsAllowedIP(b, ip)
  {
    if IsAllowedIP(a, ip) {
      var k :| 0 <= k < |a| && Contains(ip, a[k]);
      assert (a + b)[k] == a[k];
    }
    if IsAllowedIP(b, ip) {
      var k :| 0 <= k < |b| && Contains(ip, b[k]);
      assert (a + b)[|a| + k] == b[k];
    }
    if IsAllowedIP(a + b, ip) {
      var k :| 0 <= k < |a + b| && Contains(ip, (a + b)[k]);
      if k >= |a| {
        assert (a + b)[k] == b[k - |a|];
      } else {
        assert (a + b)[k] == a[k];
      }
    }
  }
}
