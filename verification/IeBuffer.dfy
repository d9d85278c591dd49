/** The element routines of core/rtw_ieee80211.c, working in place on an octet buffer. */
module IeBuffer {
  import opened Bytes
  import opened Seqs
  import opened Elements

  const WLAN_EID_VENDOR_SPECIFIC: byte := 221

  // ----- writing one element -----

  /** The octets rtw_set_ie writes: both header octets keep only the low eight bits. */
  function Written(index: nat, source: seq<byte>): seq<byte> {
    [index % 0x100, |source| % 0x100] + source
  }

  /** rtw_set_ie: returns the position after the element and the new frame length. */
  method SetIe(buf: array<byte>, at: nat, index: nat, source: seq<byte>, frlen: nat)
    returns (next: nat, frlen': nat)
    requires at + |source| + 2 <= buf.Length
    modifies buf
    ensures next == at + |source| + 2 && frlen' == frlen + |source| + 2
    ensures buf[at..next] == Written(index, source)
    ensures buf[..at] == old(buf[..at]) && buf[next..] == old(buf[next..])
  {
    buf[at] := index % 0x100;
    buf[at + 1] := |source| % 0x100;
    if |source| > 0 {
      StoredSlices(buf[..], at + 2, source);
      Store(buf, at + 2, source);
    }
    assert buf[at..at + 2] == [index % 0x100, |source| % 0x100];
    Join(buf[..], at, at + 2, at + 2 + |source|);
    next, frlen' := at + |source| + 2, frlen + |source| + 2;
  }

  /** One call of rtw_set_ie, in a run that writes each element behind the one before. */
  datatype Call = Call(index: nat, source: seq<byte>)

  function WrittenAll(calls: seq<Call>): seq<byte> {
    if calls == [] then [] else Written(calls[0].index, calls[0].source) + WrittenAll(calls[1..])
  }

  lemma {:induction false} OneMoreCall(calls: seq<Call>, c: Call)
    ensures WrittenAll(calls + [c]) == WrittenAll(calls) + Written(c.index, c.source)
  {
    if calls == [] {
      assert [] + [c] == [c] && [c][1..] == [];
    } else {
      TailOfCat(calls, [c]);
      OneMoreCall(calls[1..], c);
      Assoc(Written(calls[0].index, calls[0].source), WrittenAll(calls[1..]), Written(c.index, c.source));
    }
  }

  /** A frame body built by one rtw_set_ie after another, each at the position the one before returned. */
  method SetIes(buf: array<byte>, at: nat, calls: seq<Call>, frlen: nat) returns (next: nat, frlen': nat)
    requires at + |WrittenAll(calls)| <= buf.Length
    modifies buf
    ensures next == at + |WrittenAll(calls)| && frlen' == frlen + |WrittenAll(calls)|
    ensures buf[at..next] == WrittenAll(calls)
    ensures buf[..at] == old(buf[..at]) && buf[next..] == old(buf[next..])
  {
    hide WrittenAll, Written;
    next, frlen' := at, frlen;
    NothingWritten();
    assert calls[..0] == [] && calls[..|calls|] == calls;
    for n := 0 to |calls|
      invariant next == at + |WrittenAll(calls[..n])| <= buf.Length && frlen' == frlen + |WrittenAll(calls[..n])|
      invariant buf[at..next] == WrittenAll(calls[..n])
      invariant buf[..at] == old(buf[..at]) && buf[next..] == old(buf[next..])
    {
      Step(calls, n);
      OneMoreCall(calls[..n], calls[n]);
      WrittenPart(calls, n + 1);
      WrittenLength(calls[n].index, calls[n].source);
      ghost var s0: seq<byte>, was := buf[..], next;
      next, frlen' := SetIe(buf, next, calls[n].index, calls[n].source, frlen');
      Extended(s0, buf[..], at, was, next);
    }
  }

  lemma WrittenLength(index: nat, source: seq<byte>)
    ensures |Written(index, source)| == |source| + 2
  {
  }

  lemma {:induction false} WrittenPart(calls: seq<Call>, n: nat)
    requires n <= |calls|
    ensures |WrittenAll(calls[..n])| <= |WrittenAll(calls)|
    decreases |calls| - n
  {
    assert calls[..|calls|] == calls;
    if n < |calls| {
      Step(calls, n);
      OneMoreCall(calls[..n], calls[n]);
      WrittenPart(calls, n + 1);
    }
  }

  /** What stood in front of a write still stands there, and what stands behind it stood there before. */
  lemma Extended(s0: seq<byte>, s1: seq<byte>, at: nat, was: nat, next: nat)
    requires at <= was <= next <= |s0| == |s1| && s1[..was] == s0[..was] && s1[next..] == s0[next..]
    ensures s1[..at] == s0[..at] && s1[at..was] == s0[at..was] && s1[at..next] == s0[at..was] + s1[was..next]
    ensures s0[next..] == s0[was..][next - was..]
  {
    assert s1[..at] == s1[..was][..at] && s0[..at] == s0[..was][..at];
    assert s1[at..was] == s1[..was][at..] && s0[at..was] == s0[..was][at..];
  }

  /** The element a call's octets begin with: its length octet holds the source's length modulo 256. */
  function Meant(c: Call): Ie {
    Element(c.index % 0x100, c.source[..|c.source| % 0x100])
  }

  /** The octets of the source that its length octet does not cover. */
  function Spilled(c: Call): seq<byte> {
    c.source[|c.source| % 0x100..]
  }

  lemma SpilledIff(c: Call)
    ensures Spilled(c) == [] <==> |c.source| < 0x100
    ensures Spilled(c) == [] ==> Meant(c).body == c.source
    ensures Written(c.index, c.source) == Encode(Meant(c)) + Spilled(c)
  {
    TakeDrop(c.source, |c.source| % 0x100);
  }

  /** The first call whose source does not fit a length octet, or |calls|. */
  function FirstOverlong(calls: seq<Call>): (k: nat)
    ensures k <= |calls|
    ensures forall i :: 0 <= i < k ==> |calls[i].source| < 0x100
    ensures k < |calls| ==> |calls[k].source| >= 0x100
  {
    if calls == [] || |calls[0].source| >= 0x100 then 0 else 1 + FirstOverlong(calls[1..])
  }

  function MeantAll(calls: seq<Call>): (es: seq<Ie>)
    ensures |es| == |calls| && forall i :: 0 <= i < |calls| ==> es[i] == Meant(calls[i])
  {
    seq(|calls|, i requires 0 <= i < |calls| => Meant(calls[i]))
  }

  /** What any run of calls reads back as: every element in order, if all sources fit. Otherwise those before the first
    * that does not, then its first octets, and then whatever the octets it spilled and the later calls read as. */
  lemma {:induction false} RunReadsBack(calls: seq<Call>)
    ensures var k := FirstOverlong(calls);
            if k == |calls| then Prefix(WrittenAll(calls)) == MeantAll(calls) && WellFormed(WrittenAll(calls))
            else
              var rest := Spilled(calls[k]) + WrittenAll(calls[k + 1..]);
              && Prefix(WrittenAll(calls)) == MeantAll(calls[..k + 1]) + Prefix(rest)
              && (WellFormed(WrittenAll(calls)) <==> WellFormed(rest))
  {
    hide Prefix, Written, Encode, EncodeAll, WellFormed, Spilled, Meant;
    if calls == [] {
      PrefixOfEncodeAll([]);
      NothingWritten();
    } else {
      var c, later := calls[0], WrittenAll(calls[1..]);
      var k := FirstOverlong(calls);
      SpilledIff(c);
      Assoc(Encode(Meant(c)), Spilled(c), later);
      PrefixOne(Meant(c), Spilled(c) + later);
      if Spilled(c) == [] {
        RunReadsBack(calls[1..]);
        assert [] + later == later;
        if k == |calls| {
          assert [Meant(c)] + MeantAll(calls[1..]) == MeantAll(calls);
        } else {
          assert calls[1..][k - 1] == calls[k] && calls[1..][k..] == calls[k + 1..];
          assert [Meant(c)] + MeantAll(calls[1..][..k]) == MeantAll(calls[..k + 1]);
          Assoc([Meant(c)], MeantAll(calls[1..][..k]), Prefix(Spilled(calls[k]) + WrittenAll(calls[k + 1..])));
        }
      } else {
        assert MeantAll(calls[..1]) == [Meant(c)];
      }
    }
  }

  lemma NothingWritten()
    ensures EncodeAll([]) == [] && WrittenAll([]) == []
  {
  }

  /** The sources come back as they were, one element a call, if and only if they all fit. */
  lemma ReadsBackIff(calls: seq<Call>)
    ensures ReadsAs(Prefix(WrittenAll(calls)), calls) <==> forall i :: 0 <= i < |calls| ==> |calls[i].source| < 0x100
  {
    hide Prefix;
    RunReadsBack(calls);
  }

  predicate ReadsAs(es: seq<Ie>, calls: seq<Call>) {
    |es| == |calls| && forall i :: 0 <= i < |es| ==> es[i].id == calls[i].index % 0x100 && es[i].body == calls[i].source
  }

  // ----- searching -----

  /** rtw_get_ie over octets that encode es. The length is meaningful only when a position is returned. */
  method GetIe(buf: array<byte>, base: nat, index: int, limit: int, ghost es: seq<Ie>)
    returns (p: Option<nat>, len: nat)
    requires base + limit <= buf.Length
    requires limit >= 1 ==> buf[base..base + limit] == EncodeAll(es)
    ensures limit < 1 ==> p.None?
    ensures limit >= 1 ==>
              var k := IndexOf(es, index);
              if k == |es| then p.None? else p == Some(base + Offset(es, k)) && len == |es[k].body|
  {
    len := 0;
    if limit < 1 {
      return None, 0;
    }
    hide EncodeAll;
    ghost var k := 0;
    OffsetEnd(es, 0);
    var i := 0;
    while true
      invariant k < |es| && i == Offset(es, k) < limit
      invariant forall j :: 0 <= j < k ==> es[j].id != index
      decreases |es| - k
    {
      ReadAt(buf[..], base, base + limit, es, k);
      if buf[base + i] == index {
        IndexOfUnique(es, index, k);
        return Some(base + i), buf[base + i + 1];
      } else {
        var tmp: nat := buf[base + i + 1];
        i := i + tmp + 2;
        k := k + 1;
      }
      if i >= limit {
        break;
      }
    }
    IndexOfUnique(es, index, k);
    return None, 0;
  }

  /** The element rtw_get_ie_ex is looking for: the id, and the OUI when one is given. */
  predicate Matches(e: Ie, eid: byte, oui: Option<seq<byte>>) {
    e.id == eid && (oui.Some? ==> |oui.value| <= |e.body| && e.body[..|oui.value|] == oui.value)
  }

  /** Matching is beginning with the OUI. */
  lemma MatchesIff(e: Ie, eid: byte, oui: seq<byte>)
    ensures Matches(e, eid, Some(oui)) <==> e.id == eid && exists rest: seq<byte> :: e.body == oui + rest
    ensures Matches(e, eid, None) <==> e.id == eid
  {
    if |oui| <= |e.body| && e.body[..|oui|] == oui {
      assert e.body == oui + e.body[|oui|..];
    }
  }

  /** Every element with this id is long enough to hold an OUI. */
  ghost predicate OuiReadable(es: seq<Ie>, eid: byte, oui: Option<seq<byte>>) {
    oui.Some? ==> forall e <- es :: e.id == eid ==> |oui.value| <= |e.body|
  }

  /** Index of the first match, or |es|. */
  function IndexOfMatch(es: seq<Ie>, eid: byte, oui: Option<seq<byte>>): (k: nat)
    ensures k <= |es|
  {
    if es == [] || Matches(es[0], eid, oui) then 0 else 1 + IndexOfMatch(es[1..], eid, oui)
  }

  lemma {:induction false} IndexOfMatchIsFirst(es: seq<Ie>, eid: byte, oui: Option<seq<byte>>, k: nat)
    requires k <= |es|
    ensures IndexOfMatch(es, eid, oui) == k <==>
              && (forall j :: 0 <= j < k ==> !Matches(es[j], eid, oui))
              && (k < |es| ==> Matches(es[k], eid, oui))
  {
    if es != [] && !Matches(es[0], eid, oui) {
      if k > 0 {
        IndexOfMatchIsFirst(es[1..], eid, oui, k - 1);
        assert forall j :: 0 < j < |es| ==> es[j] == es[1..][j - 1];
      }
    }
  }

  /** rtw_get_ie_ex over octets that encode es, with the two copy-out pointers NULL and &ielen. */
  method GetIeEx(buf: array<byte>, base: nat, in_len: nat, eid: byte, oui: Option<seq<byte>>, ghost es: seq<Ie>)
    returns (target: Option<nat>, ielen: nat)
    requires base + in_len <= buf.Length
    requires buf[base..base + in_len] == EncodeAll(es)
    requires OuiReadable(es, eid, oui)
    ensures var k := IndexOfMatch(es, eid, oui);
            if k == |es| then target.None? && ielen == 0
            else target == Some(base + Offset(es, k)) && ielen == |es[k].body| + 2
  {
    hide EncodeAll, IndexOfMatch;
    ghost var k := 0;
    OffsetEnd(es, 0);
    var cnt := 0;
    while cnt < in_len
      invariant k <= |es| && cnt == Offset(es, k) <= in_len
      invariant cnt < in_len <==> k < |es|
      invariant forall j :: 0 <= j < k ==> !Matches(es[j], eid, oui)
    {
      ReadAt(buf[..], base, base + in_len, es, k);
      MatchAt(buf[..], base, base + in_len, es, k, eid, oui);
      if eid == buf[base + cnt] && (oui.None? || buf[base + cnt + 2..base + cnt + 2 + |oui.value|] == oui.value) {
        IndexOfMatchIsFirst(es, eid, oui, k);
        return Some(base + cnt), buf[base + cnt + 1] as int + 2;
      } else {
        cnt := cnt + buf[base + cnt + 1] as int + 2;
        k := k + 1;
      }
    }
    IndexOfMatchIsFirst(es, eid, oui, k);
    return None, 0;
  }

  /** Comparing octets in the buffer decides whether element k matches. */
  lemma MatchAt(a: seq<byte>, lo: nat, hi: nat, es: seq<Ie>, k: nat, eid: byte, oui: Option<seq<byte>>)
    requires lo <= hi <= |a| && a[lo..hi] == EncodeAll(es) && k < |es|
    requires OuiReadable(es, eid, oui)
    ensures var p := lo + Offset(es, k);
            && p < hi && (a[p] == eid && oui.Some? ==> p + 2 + |oui.value| <= hi)
            && (Matches(es[k], eid, oui) <==> eid == a[p] && (oui.None? || a[p + 2..p + 2 + |oui.value|] == oui.value))
  {
    hide EncodeAll;
    ReadAt(a, lo, hi, es, k);
    assert es[k] in es;
    if oui.Some? && es[k].id == eid {
      BodyAt(a, lo, hi, es, k, |oui.value|);
    }
  }

  // ----- removing every match -----

  /** The elements that survive a removal. */
  function Without(es: seq<Ie>, eid: byte, oui: Option<seq<byte>>): (r: seq<Ie>)
    ensures |r| <= |es|
  {
    if es == [] then []
    else if Matches(es[0], eid, oui) then Without(es[1..], eid, oui)
    else [es[0]] + Without(es[1..], eid, oui)
  }

  lemma {:induction false} WithoutConcat(a: seq<Ie>, b: seq<Ie>, eid: byte, oui: Option<seq<byte>>)
    ensures Without(a + b, eid, oui) == Without(a, eid, oui) + Without(b, eid, oui)
  {
    if a == [] {
      assert a + b == b;
    } else {
      WithoutConcat(a[1..], b, eid, oui);
      TailOfCat(a, b);
      if !Matches(a[0], eid, oui) {
        Assoc([a[0]], Without(a[1..], eid, oui), Without(b, eid, oui));
      }
    }
  }

  lemma {:induction false} WithoutNothing(es: seq<Ie>, eid: byte, oui: Option<seq<byte>>)
    requires forall j :: 0 <= j < |es| ==> !Matches(es[j], eid, oui)
    ensures Without(es, eid, oui) == es
  {
    if es != [] {
      assert forall j :: 0 <= j < |es[1..]| ==> es[1..][j] == es[j + 1];
      WithoutNothing(es[1..], eid, oui);
      HeadTail(es);
    }
  }

  /** Order and multiplicity: exactly the non-matching elements remain, each as often as before. */
  lemma {:induction false} WithoutKeepsTheRest(es: seq<Ie>, eid: byte, oui: Option<seq<byte>>, e: Ie)
    ensures multiset(Without(es, eid, oui))[e] == if Matches(e, eid, oui) then 0 else multiset(es)[e]
  {
    if es != [] {
      WithoutKeepsTheRest(es[1..], eid, oui, e);
      HeadTail(es);
      MultisetOfCat([es[0]], es[1..]);
      MultisetOfCat([es[0]], Without(es[1..], eid, oui));
    }
  }

  /** The removal takes octets away exactly when some element matches. */
  lemma {:induction false} WithoutShorterIff(es: seq<Ie>, eid: byte, oui: Option<seq<byte>>)
    ensures |EncodeAll(Without(es, eid, oui))| <= |EncodeAll(es)|
    ensures |EncodeAll(Without(es, eid, oui))| < |EncodeAll(es)| <==> exists e :: e in es && Matches(e, eid, oui)
  {
    if es != [] {
      WithoutShorterIff(es[1..], eid, oui);
      HeadTail(es);
      if !Matches(es[0], eid, oui) {
        EncodeAllConcat([es[0]], Without(es[1..], eid, oui));
        EncodeOne(es[0]);
      } else {
        assert es[0] in es;
      }
    }
  }

  /** One step of the removal: the first match leaves, and what is left of it stays as it was. */
  lemma WithoutFirstMatch(es: seq<Ie>, k: nat, eid: byte, oui: Option<seq<byte>>)
    requires k < |es| && Matches(es[k], eid, oui)
    requires forall j :: 0 <= j < k ==> !Matches(es[j], eid, oui)
    ensures Without(es, eid, oui) == es[..k] + Without(es[k + 1..], eid, oui)
  {
    WithoutConcat(es[..k], es[k..], eid, oui);
    TakeDrop(es, k);
    Step(es, k);
    WithoutNothing(es[..k], eid, oui);
  }

  lemma WithoutStep(kept: seq<Ie>, todo: seq<Ie>, k: nat, eid: byte, oui: Option<seq<byte>>)
    requires k < |todo| && Matches(todo[k], eid, oui) && OuiReadable(todo, eid, oui)
    requires forall j :: 0 <= j < k ==> !Matches(todo[j], eid, oui)
    ensures (kept + todo[..k]) + Without(todo[k + 1..], eid, oui) == kept + Without(todo, eid, oui)
    ensures OuiReadable(todo[k + 1..], eid, oui)
  {
    WithoutFirstMatch(todo, k, eid, oui);
    Assoc(kept, todo[..k], Without(todo[k + 1..], eid, oui));
    forall e | e in todo[k + 1..] ensures e in todo {
    }
  }

  /** Halfway through a removal: kept is final, todo still has to be searched. */
  ghost predicate Layout(a: seq<byte>, offset: nat, start: nat, end: nat, kept: seq<Ie>, todo: seq<Ie>) {
    && offset <= start <= end <= |a|
    && a[offset..start] == EncodeAll(kept)
    && a[start..end] == EncodeAll(todo)
  }

  /** Only octets in [offset, limit) differ. */
  ghost predicate SameOutside(a: seq<byte>, b: seq<byte>, offset: nat, limit: nat) {
    && offset <= limit <= |a| == |b|
    && a[..offset] == b[..offset]
    && a[limit..] == b[limit..]
  }

  /** rtw_ies_remove_ie: returns whether something was removed and the new length. */
  method RemoveIe(ies: array<byte>, ies_len: nat, offset: nat, eid: byte, oui: Option<seq<byte>>, ghost es: seq<Ie>)
    returns (updated: bool, ies_len': nat)
    requires ies_len <= ies.Length
    requires offset < ies_len ==> ies[offset..ies_len] == EncodeAll(es) && OuiReadable(es, eid, oui)
    modifies ies
    ensures ies_len <= offset ==> !updated && ies_len' == ies_len && ies[..] == old(ies[..])
    ensures offset < ies_len ==>
              && offset <= ies_len' <= ies_len
              && ies[offset..ies_len'] == EncodeAll(Without(es, eid, oui))
              && (updated <==> exists e :: e in es && Matches(e, eid, oui))
              && SameOutside(old(ies[..]), ies[..], offset, ies_len)
  {
    hide *;
    updated, ies_len' := false, ies_len;
    if ies_len <= offset {
      return;
    }
    var start: nat, search_len: nat := offset, ies_len - offset;
    ghost var kept: seq<Ie>, todo := [], es;
    RemovalStarts(ies[..], offset, ies_len, es, eid, oui);
    while true
      invariant offset <= start <= ies_len' == start + search_len <= ies_len
      invariant Layout(ies[..], offset, start, ies_len', kept, todo)
      invariant OuiReadable(todo, eid, oui)
      invariant kept + Without(todo, eid, oui) == Without(es, eid, oui)
      invariant updated <==> ies_len' < ies_len
      invariant SameOutside(old(ies[..]), ies[..], offset, ies_len)
      decreases search_len
    {
      assert ies[start..ies_len'] == EncodeAll(todo) by {
        Rest(ies[..], offset, start, ies_len', kept, todo);
      }
      var target, ielen := GetIeEx(ies, start, search_len, eid, oui, todo);
      ghost var k := IndexOfMatch(todo, eid, oui);
      IndexOfMatchIsFirst(todo, eid, oui, k);
      if target.Some? && ielen != 0 {
        ReadAt(ies[..], start, ies_len', todo, k);
        var remain := target.value + ielen;
        var remain_len := search_len - (remain - start);
        ghost var before := ies[..];
        Move(ies, target.value, remain, remain_len);
        Closed(before, ies[..], offset, start, target.value, remain, ies_len', kept, todo, k);
        Beyond(old(ies[..]), before, ies[..], offset, target.value, remain, ies_len', ies_len);
        WithoutStep(kept, todo, k, eid, oui);
        kept, todo := kept + todo[..k], todo[k + 1..];
        ies_len' := ies_len' - ielen;
        updated := true;
        start, search_len := target.value, remain_len;
      } else {
        WithoutNothing(todo, eid, oui);
        break;
      }
    }
    RemovalEnds(ies[..], offset, start, ies_len', kept, todo, es, eid, oui);
  }

  lemma RemovalStarts(a: seq<byte>, offset: nat, end: nat, es: seq<Ie>, eid: byte, oui: Option<seq<byte>>)
    requires offset <= end <= |a| && a[offset..end] == EncodeAll(es)
    ensures Layout(a, offset, offset, end, [], es)
    ensures [] + Without(es, eid, oui) == Without(es, eid, oui)
    ensures SameOutside(a, a, offset, end)
    ensures end - offset == |EncodeAll(es)|
  {
  }

  lemma Rest(a: seq<byte>, offset: nat, start: nat, end: nat, kept: seq<Ie>, todo: seq<Ie>)
    requires Layout(a, offset, start, end, kept, todo)
    ensures a[start..end] == EncodeAll(todo)
  {
  }

  lemma RemovalEnds(a: seq<byte>, offset: nat, start: nat, end: nat, kept: seq<Ie>, todo: seq<Ie>,
                    es: seq<Ie>, eid: byte, oui: Option<seq<byte>>)
    requires Layout(a, offset, start, end, kept, todo) && kept + todo == Without(es, eid, oui)
    ensures a[offset..end] == EncodeAll(Without(es, eid, oui))
    ensures end < offset + |EncodeAll(es)| <==> exists e :: e in es && Matches(e, eid, oui)
  {
    hide EncodeAll, Without;
    EncodeAllConcat(kept, todo);
    Join(a, offset, start, end);
    WithoutShorterIff(es, eid, oui);
  }

  /** Moving what follows element k down over it leaves the elements before and after it, side by side. */
  lemma Closed(a: seq<byte>, b: seq<byte>, offset: nat, start: nat, cut: nat, from: nat, end: nat,
               kept: seq<Ie>, todo: seq<Ie>, k: nat)
    requires Layout(a, offset, start, end, kept, todo) && k < |todo|
    requires cut == start + Offset(todo, k) && from == start + Offset(todo, k + 1) && from <= end
    requires cut <= from && b == Stored(a, cut, a[from..end])
    ensures Layout(b, offset, cut, cut + (end - from), kept + todo[..k], todo[k + 1..])
  {
    hide EncodeAll;
    CutAt(todo, k);
    CutAt(todo, k + 1);
    SliceOfSlice(a, start, end, 0, Offset(todo, k));
    SliceOfSlice(a, start, end, Offset(todo, k + 1), end - start);
    Join(a, offset, start, cut);
    EncodeAllConcat(kept, todo[..k]);
    Spliced(a, b, offset, cut, from, end);
  }

  /** The parts of a buffer after [from, end) was moved down to cut. */
  lemma Spliced(a: seq<byte>, b: seq<byte>, offset: nat, cut: nat, from: nat, end: nat)
    requires offset <= cut <= from <= end <= |a|
    requires b == Stored(a, cut, a[from..end])
    ensures |b| == |a| && b[..offset] == a[..offset] && b[offset..cut] == a[offset..cut]
    ensures b[cut..cut + (end - from)] == a[from..end]
  {
  }

  lemma Beyond(first: seq<byte>, a: seq<byte>, b: seq<byte>, offset: nat, cut: nat, from: nat, end: nat, limit: nat)
    requires SameOutside(first, a, offset, limit)
    requires offset <= cut <= from <= end <= limit
    requires b == Stored(a, cut, a[from..end])
    ensures SameOutside(first, b, offset, limit)
  {
  }
}
