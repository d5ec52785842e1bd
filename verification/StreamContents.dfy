/** What a coded stream carries besides its body: the extensions of its headers, and the bytes
    behind its end. */
module StreamContents {
  import opened Options
  import opened Bytes
  import opened ChunkedStream
  import opened Extensions

  /** The text of the extensions in the first header. */
  function HeadList(s: bytes): bytes
    requires StartsWithHeader(s)
  {
    var h := Scan(s).value;
    if 0 <= h.ext <= h.cr <= |s| then s[h.ext..h.cr] else []
  }

  /** The list read from `t` does not depend on what lies behind it in memory. */
  ghost predicate Settled(t: bytes) {
    forall after: bytes :: ParseList(t, after) == ParseList(t, [])
  }

  datatype Contents = Contents(metas: seq<Meta>, behind: bytes)

  ghost function Carried(k: nat, s: bytes): Contents
    requires WellFormed(k, s)
    decreases |s|, k
  {
    if k != 0 then Carried(0, s[k..])
    else
      var metas := ParseList(HeadList(s), []);
      if HeadSize(s) == 0 then Contents(metas, AfterHead(s)[2..])
      else
        var c := Carried(HeadSize(s) + 2, AfterHead(s));
        c.(metas := metas + c.metas)
  }

  /** Every list of extensions in the stream is settled. */
  ghost predicate Steady(k: nat, s: bytes)
    requires WellFormed(k, s)
    decreases |s|, k
  {
    if k != 0 then Steady(0, s[k..])
    else Settled(HeadList(s)) && (HeadSize(s) != 0 ==> Steady(HeadSize(s) + 2, AfterHead(s)))
  }

  lemma CarriedBody(k: nat, s: bytes)
    requires k != 0 && WellFormed(k, s)
    ensures WellFormed(0, s[k..]) && Carried(k, s) == Carried(0, s[k..]) && Steady(k, s) == Steady(0, s[k..])
  {
  }

  lemma CarriedHead(s: bytes)
    requires WellFormed(0, s)
    ensures StartsWithHeader(s)
    ensures var (n, t, metas) := (HeadSize(s), AfterHead(s), ParseList(HeadList(s), []));
      if n == 0 then
        CrLfAt(t, 0) && Carried(0, s) == Contents(metas, t[2..]) && Steady(0, s) == Settled(HeadList(s))
      else
        && WellFormed(n + 2, t)
        && Carried(0, s) == Contents(metas + Carried(n + 2, t).metas, Carried(n + 2, t).behind)
        && Steady(0, s) == (Settled(HeadList(s)) && Steady(n + 2, t))
  {
    hide ParseList, HeadList, StartsWithHeader, HeadSize, AfterHead, Settled;
  }

  /** Some of the announced body bytes may be taken off first. */
  lemma TakeCarried(k: nat, s: bytes, n: nat)
    requires k > 2 && n <= k - 2 && WellFormed(k, s)
    ensures WellFormed(k - n, s[n..])
    ensures Carried(k - n, s[n..]) == Carried(k, s) && Steady(k - n, s[n..]) == Steady(k, s)
  {
    hide WellFormed, Carried, Steady;
    WellFormedBody(k, s);
    TakeBody(k, s, n);
    CarriedBody(k, s);
    CarriedBody(k - n, s[n..]);
    assert s[n..][k - n..] == s[k..];
  }

  /** The end of a stream is where the stream itself says: whatever follows lies behind it. */
  lemma {:induction false} StreamExtends(k: nat, s: bytes, more: bytes)
    requires WellFormed(k, s)
    ensures WellFormed(k, s + more) && Body(k, s + more) == Body(k, s)
    ensures Carried(k, s + more) == Carried(k, s).(behind := Carried(k, s).behind + more)
    decreases |s|, k
  {
    hide WellFormed, Body, Carried, StartsWithHeader, HeadSize, AfterHead, HeadList, ParseList, Steady;
    var w := s + more;
    if k != 0 {
      WellFormedBody(k, s);
      WellFormedBody(k, w);
      assert w[k..] == s[k..] + more && w[..k - 2] == s[..k - 2];
      StreamExtends(0, s[k..], more);
      CarriedBody(k, s);
      CarriedBody(k, w);
    } else {
      WellFormedHead(s);
      HeadExtends(s, more);
      WellFormedHead(w);
      CarriedHead(s);
      if HeadSize(s) != 0 { StreamExtends(HeadSize(s) + 2, AfterHead(s), more); }
      CarriedHead(w);
    }
  }

  /** More bytes behind a header do not change it. */
  lemma HeadExtends(s: bytes, more: bytes)
    requires StartsWithHeader(s)
    ensures StartsWithHeader(s + more) && HeadSize(s + more) == HeadSize(s) && HeadList(s + more) == HeadList(s)
    ensures AfterHead(s + more) == AfterHead(s) + more
  {
    hide ScanFrom;
    ScanExtends(s, more, 0, FRESH);
    var h := Scan(s).value;
    var w := s + more;
    assert w[..SizeEnd(h)] == s[..SizeEnd(h)];
    assert w[h.lf + 1..] == s[h.lf + 1..] + more;
    if 0 <= h.ext <= h.cr <= |s| { assert w[h.ext..h.cr] == s[h.ext..h.cr]; }
    ScanRange(s, 0, FRESH);
  }
}
