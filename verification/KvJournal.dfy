/** The journal: what a put appends to it, and what the replay reads back. */
module KvJournal {
  import opened KvSlots
  import opened KvBytes

  const COMMITTED: Byte := 0x0f

  /** Key, end mark, level, value, end mark, commit byte. */
  function Encoded(e: Entry): seq<Byte> {
    e.key + [KEY_END] + [e.level % 256] + e.value + [VALUE_END] + [COMMITTED]
  }

  function EncodedAll(es: seq<Entry>): seq<Byte> {
    if es == [] then [] else Encoded(es[0]) + EncodedAll(es[1..])
  }

  /** The entries the replay takes from offset p on.  It stops at the first entry that reads as
      having no key, no level, no value, or no commit byte. */
  function ParseLog(d: seq<Byte>, p: nat): seq<Entry>
    decreases |d| - p
  {
    var key := TextFrom(d, p, KEY_END);
    var q := AfterText(d, p, KEY_END);
    if key == [] || q >= |d| then []
    else
      var value := TextFrom(d, q + 1, VALUE_END);
      var r := AfterText(d, q + 1, VALUE_END);
      if value == [] || r >= |d| || d[r] != COMMITTED then []
      else [Entry(key, value, d[q])] + ParseLog(d, r + 1)
  }

  /** Entries the journal can give back. */
  ghost predicate Loggable(e: Entry) {
    && GoodEntry(e)
    && e.key != [] && KEY_END !in e.key
    && e.value != [] && VALUE_END !in e.value
  }

  /** The first n bytes of bs stand at p. */
  ghost predicate BytesAt(d: seq<Byte>, p: nat, bs: seq<Byte>, n: nat) {
    n <= |bs| && p + n <= |d| && forall i :: 0 <= i < n ==> d[p + i] == bs[i]
  }

  /** Reading in a stretch s at the end of the file that holds no zero byte. */
  lemma {:induction false} TextAtEof(d: seq<Byte>, p: nat, s: seq<Byte>, stop: Byte)
    requires p <= |d| && d[p..] == s && CString(s)
    ensures TextFrom(d, p, stop) == UpTo(s, stop)
    decreases |s|
  {
    if s != [] {
      assert d[p] == d[p..][0] == s[0];
      assert d[p + 1..] == d[p..][1..] == s[1..];
      TextAtEof(d, p + 1, s[1..], stop);
    }
  }

  /** The pieces of an entry's encoding, by offset. */
  lemma EncodedPieces(e: Entry)
    ensures var bs, k, v := Encoded(e), |e.key|, |e.value|;
      && |bs| == k + v + 4
      && (forall i :: 0 <= i < k ==> bs[i] == e.key[i])
      && bs[k] == KEY_END && bs[k + 1] == e.level % 256
      && (forall i :: 0 <= i < v ==> bs[k + 2 + i] == e.value[i])
      && bs[k + v + 2] == VALUE_END && bs[k + v + 3] == COMMITTED
  {
  }

  lemma UpToIsCString(s: seq<Byte>, stop: Byte)
    requires CString(s)
    ensures CString(UpTo(s, stop))
  {
    assert forall i :: 0 <= i < |UpTo(s, stop)| ==> UpTo(s, stop)[i] == s[i];
  }

  /** The key part of an entry that is there at least up to its end mark. */
  lemma KeyIsParsed(d: seq<Byte>, p: nat, e: Entry, n: nat)
    requires GoodEntry(e) && BytesAt(d, p, Encoded(e), n) && |e.key| < n
    ensures TextFrom(d, p, KEY_END) == UpTo(e.key, KEY_END)
    ensures KEY_END !in e.key ==> AfterText(d, p, KEY_END) == p + |e.key| + 1
  {
    hide Encoded, UpTo, TextFrom, LevelSize;
    EncodedPieces(e);
    UpToIsCString(e.key, KEY_END);
    var bs, key := Encoded(e), UpTo(e.key, KEY_END);
    assert forall i :: 0 <= i < |e.key| ==> d[p + i] == bs[i] == e.key[i];
    assert d[p + |e.key|] == KEY_END;
    WrittenText(d, p, e.key, KEY_END);
    TextIsRead(d, p, key, KEY_END);
    if KEY_END !in e.key {
      UpToOfClean(e.key, KEY_END);
    }
  }

  /** The value part of an entry that is there at least up to its end mark. */
  lemma ValueIsParsed(d: seq<Byte>, p: nat, e: Entry, n: nat)
    requires GoodEntry(e) && BytesAt(d, p, Encoded(e), n) && |e.key| + |e.value| + 2 < n
    ensures var q := p + |e.key| + 2;
      && TextFrom(d, q, VALUE_END) == UpTo(e.value, VALUE_END)
      && (VALUE_END !in e.value ==> AfterText(d, q, VALUE_END) == q + |e.value| + 1)
  {
    hide Encoded, UpTo, TextFrom, LevelSize;
    EncodedPieces(e);
    UpToIsCString(e.value, VALUE_END);
    var bs, q := Encoded(e), p + |e.key| + 2;
    forall i | 0 <= i < |e.value| ensures d[q + i] == e.value[i] {
      assert d[p + (|e.key| + 2 + i)] == bs[|e.key| + 2 + i];
    }
    assert d[p + (|e.key| + 2 + |e.value|)] == bs[|e.key| + |e.value| + 2];
    WrittenText(d, q, e.value, VALUE_END);
    TextIsRead(d, q, UpTo(e.value, VALUE_END), VALUE_END);
    if VALUE_END !in e.value {
      UpToOfClean(e.value, VALUE_END);
    }
  }

  lemma LoggableIsParsed(d: seq<Byte>, p: nat, e: Entry)
    requires Loggable(e) && BytesAt(d, p, Encoded(e), |Encoded(e)|)
    ensures ParseLog(d, p) == [e] + ParseLog(d, p + |Encoded(e)|)
  {
    hide TextFrom, UpTo, LevelSize;
    EncodedPieces(e);
    var bs, k := Encoded(e), |e.key|;
    assert d[p + (k + 1)] == bs[k + 1] && d[p + (k + |e.value| + 3)] == bs[k + |e.value| + 3];
    KeyIsParsed(d, p, e, |bs|);
    ValueIsParsed(d, p, e, |bs|);
    UpToOfClean(e.key, KEY_END);
    UpToOfClean(e.value, VALUE_END);
  }

  /** A complete entry is given back if and only if it is loggable. */
  lemma FirstIsParsedIff(d: seq<Byte>, p: nat, e: Entry)
    requires GoodEntry(e) && BytesAt(d, p, Encoded(e), |Encoded(e)|)
    ensures Loggable(e) ==> ParseLog(d, p) == [e] + ParseLog(d, p + |Encoded(e)|)
    ensures ParseLog(d, p) != [] && ParseLog(d, p)[0] == e ==> Loggable(e)
  {
    hide ParseLog, TextFrom, UpTo, LevelSize, Encoded, BytesAt, CString;
    EncodedPieces(e);
    if Loggable(e) {
      LoggableIsParsed(d, p, e);
    } else if ParseLog(d, p) != [] {
      FirstParsed(d, p);
      KeyIsParsed(d, p, e, |Encoded(e)|);
      ValueIsParsed(d, p, e, |Encoded(e)|);
    }
  }

  /** Key and value of the first entry that the replay takes. */
  lemma FirstParsed(d: seq<Byte>, p: nat)
    requires ParseLog(d, p) != []
    ensures var e := ParseLog(d, p)[0];
      && e.key == TextFrom(d, p, KEY_END) != []
      && e.value == TextFrom(d, AfterText(d, p, KEY_END) + 1, VALUE_END) != []
  {
    hide TextFrom, AfterText;
  }

  /** The first n bytes pass for a whole entry: key and value have their end marks there, with a byte
      between them, and what looks like the commit byte follows. */
  predicate LooksWhole(bs: seq<Byte>, n: nat)
    requires n <= |bs|
  {
    var key := UpTo(bs, KEY_END);
    && key != [] && |key| + 2 <= |bs|
    && var value := UpTo(bs[|key| + 2..], VALUE_END);
    value != [] && |key| + |value| + 3 < n && bs[|key| + |value| + 3] == COMMITTED
  }

  /** Whether the first n bytes of an entry's encoding do: an end mark of the value stands early. */
  predicate ReadsEarly(e: Entry, n: nat)
    requires n <= |Encoded(e)|
  {
    LooksWhole(Encoded(e), n)
  }

  lemma {:induction false} UpToOfPrefix(s: seq<Byte>, n: nat, stop: Byte)
    requires n <= |s|
    ensures UpTo(s[..n], stop) == if |UpTo(s, stop)| < n then UpTo(s, stop) else s[..n]
  {
    hide UpTo;
    UpToStarts(s, stop);
    UpToStarts(s[..n], stop);
    if n > 0 && s[0] != stop {
      PrefixOfTail(s, n);
      UpToOfPrefix(s[1..], n - 1, stop);
    }
  }

  lemma UpToStarts(s: seq<Byte>, stop: Byte)
    ensures s != [] && s[0] != stop ==> UpTo(s, stop) == [s[0]] + UpTo(s[1..], stop)
    ensures s == [] || s[0] == stop ==> UpTo(s, stop) == []
  {
  }

  lemma PrefixOfTail(s: seq<Byte>, n: nat)
    requires 0 < n <= |s|
    ensures s[..n][1..] == s[1..][..n - 1] && s[..n] == [s[0]] + s[1..][..n - 1]
  {
  }

  lemma EncodedIsCString(e: Entry, n: nat)
    requires GoodEntry(e) && n <= |Encoded(e)|
    ensures CString(Encoded(e)[..n])
  {
    assert e.level % 256 == e.level;
  }

  lemma ParseStarts(d: seq<Byte>, p: nat)
    ensures var q := AfterText(d, p, KEY_END);
      var r := AfterText(d, q + 1, VALUE_END);
      ParseLog(d, p) != [] <==>
        TextFrom(d, p, KEY_END) != [] && q < |d| && TextFrom(d, q + 1, VALUE_END) != [] && r < |d| && d[r] == COMMITTED
  {
    hide TextFrom, AfterText;
  }

  /** What the replay makes of a stretch without zero bytes at the end of the log. */
  lemma ParseAtEof(d: seq<Byte>, p: nat, s: seq<Byte>)
    requires p <= |d| && d[p..] == s && CString(s)
    ensures ParseLog(d, p) != [] <==> LooksWhole(s, |s|)
  {
    hide ParseLog, TextFrom, UpTo, CString;
    var k := UpTo(s, KEY_END);
    ParseStarts(d, p);
    TextAtEof(d, p, s, KEY_END);
    ValueAtEof(d, p, s, |k| + 2);
    assert |d| == p + |s|;
    if |k| + 2 <= |s| {
      var v := UpTo(s[|k| + 2..], VALUE_END);
      if |k| + |v| + 3 < |s| {
        assert s[|k| + |v| + 3] == d[p..][|k| + |v| + 3] == d[p + |k| + |v| + 3];
      }
    }
  }

  lemma ValueAtEof(d: seq<Byte>, p: nat, s: seq<Byte>, k: nat)
    requires p <= |d| && d[p..] == s && CString(s)
    ensures TextFrom(d, p + k, VALUE_END) == if k <= |s| then UpTo(s[k..], VALUE_END) else []
  {
    hide TextFrom, UpTo;
    if k <= |s| {
      assert d[p + k..] == d[p..][k..];
      TextAtEof(d, p + k, s[k..], VALUE_END);
    }
  }

  /** What looks whole does so by its own bytes. */
  lemma LooksWholePrefix(bs: seq<Byte>, n: nat)
    requires n <= |bs|
    ensures LooksWhole(bs[..n], n) <==> LooksWhole(bs, n)
  {
    hide UpTo;
    UpToOfPrefix(bs, n, KEY_END);
    var k := UpTo(bs, KEY_END);
    if |k| + 2 <= n {
      assert bs[..n][|k| + 2..] == bs[|k| + 2..][..n - |k| - 2];
      UpToOfPrefix(bs[|k| + 2..], n - |k| - 2, VALUE_END);
    }
  }

  lemma BytesAtEof(d: seq<Byte>, p: nat, bs: seq<Byte>, n: nat)
    requires BytesAt(d, p, bs, n) && p + n == |d|
    ensures d[p..] == bs[..n]
  {
  }

  /** An entry whose last bytes have not reached the log is not given back if and only if what is there
      does not read early. */
  lemma TornIsIgnoredIff(d: seq<Byte>, p: nat, e: Entry, n: nat)
    requires GoodEntry(e) && n < |Encoded(e)| && BytesAt(d, p, Encoded(e), n) && p + n == |d|
    ensures ParseLog(d, p) == [] <==> !ReadsEarly(e, n)
  {
    hide TextFrom, ParseLog, UpTo, LevelSize, Encoded, CString, GoodEntry, BytesAt, LooksWhole;
    EncodedIsCString(e, n);
    BytesAtEof(d, p, Encoded(e), n);
    ParseAtEof(d, p, Encoded(e)[..n]);
    LooksWholePrefix(Encoded(e), n);
  }

  lemma {:induction false} UpToConcat(s: seq<Byte>, t: seq<Byte>, stop: Byte)
    ensures UpTo(s + t, stop) == if stop in s then UpTo(s, stop) else s + UpTo(t, stop)
  {
    if s == [] {
      assert s + t == t;
    } else {
      assert (s + t)[1..] == s[1..] + t;
      UpToConcat(s[1..], t, stop);
    }
  }

  const Tail: seq<Byte> := [VALUE_END] + [COMMITTED]

  lemma EncodedMarks(e: Entry)
    requires KEY_END !in e.key
    ensures |Encoded(e)| == |e.key| + 2 + |e.value| + 2
    ensures UpTo(Encoded(e), KEY_END) == e.key
    ensures Encoded(e)[|e.key| + 2..] == e.value + Tail
  {
    var more := [KEY_END] + [e.level % 256] + (e.value + Tail);
    assert Encoded(e) == e.key + more;
    UpToConcat(e.key, more, KEY_END);
    assert Encoded(e)[|e.key| + 2..] == e.value + Tail;
  }

  lemma {:induction false} UpToIsShorter(s: seq<Byte>, stop: Byte)
    requires stop in s
    ensures |UpTo(s, stop)| < |s|
  {
    if s[0] != stop {
      UpToIsShorter(s[1..], stop);
    }
  }

  lemma ValueMark(value: seq<Byte>)
    ensures UpTo(value + Tail, VALUE_END) == UpTo(value, VALUE_END)
    ensures |UpTo(value, VALUE_END)| < |value| <==> VALUE_END in value
  {
    UpToConcat(value, Tail, VALUE_END);
    assert UpTo(Tail, VALUE_END) == [];
    if VALUE_END !in value {
      UpToOfClean(value, VALUE_END);
    } else {
      UpToIsShorter(value, VALUE_END);
    }
  }

  /** For a key without end mark it takes a value with an end mark inside, text in front of that and the
      commit byte behind it; so a loggable entry never reads early. */
  lemma ReadsEarlyIff(e: Entry, n: nat)
    requires KEY_END !in e.key && n < |Encoded(e)|
    ensures var value := UpTo(e.value, VALUE_END);
      ReadsEarly(e, n) <==>
        && e.key != [] && value != [] && |value| + 1 < |e.value| && e.value[|value| + 1] == COMMITTED
        && |e.key| + |value| + 3 < n
  {
    EncodedMarks(e);
    ValueMark(e.value);
    hide UpTo, Encoded;
    var bs, value := Encoded(e), UpTo(e.value, VALUE_END);
    if |value| + 1 < |e.value| + 2 {
      assert bs[|e.key| + 2..][|value| + 1] == bs[|e.key| + |value| + 3];
      assert (e.value + Tail)[|value| + 1] == if |value| + 1 < |e.value| then e.value[|value| + 1] else Tail[|value| + 1 - |e.value|];
    }
  }

  ghost predicate AllGood(es: seq<Entry>) {
    forall i :: 0 <= i < |es| ==> GoodEntry(es[i])
  }

  ghost predicate AllLoggable(es: seq<Entry>) {
    forall i :: 0 <= i < |es| ==> Loggable(es[i])
  }

  /** From p on the log holds the entries es and then the first n bytes of one more. */
  ghost predicate LogFrom(d: seq<Byte>, p: nat, es: seq<Entry>, last: Entry, n: nat)
    decreases |es|
  {
    if es == [] then BytesAt(d, p, Encoded(last), n) && p + n == |d|
    else
      && BytesAt(d, p, Encoded(es[0]), |Encoded(es[0])|)
      && LogFrom(d, p + |Encoded(es[0])|, es[1..], last, n)
  }

  /** A log that was appended to entry by entry has that shape. */
  lemma {:induction false} AppendedLog(d: seq<Byte>, p: nat, es: seq<Entry>, last: Entry, n: nat)
    requires p <= |d| && n <= |Encoded(last)| && d[p..] == EncodedAll(es) + Encoded(last)[..n]
    ensures LogFrom(d, p, es, last, n)
    decreases |es|
  {
    hide Encoded;
    if es == [] {
      forall i | 0 <= i < n ensures d[p + i] == Encoded(last)[i] {
        assert d[p..][i] == Encoded(last)[i];
      }
    } else {
      var first := Encoded(es[0]);
      var more := EncodedAll(es[1..]) + Encoded(last)[..n];
      assert d[p..] == first + more;
      forall i | 0 <= i < |first| ensures d[p + i] == first[i] {
        assert d[p..][i] == first[i];
      }
      assert d[p + |first|..] == d[p..][|first|..] == more;
      AppendedLog(d, p + |first|, es[1..], last, n);
    }
  }

  lemma {:induction false} EncodedAllMore(es: seq<Entry>, e: Entry)
    ensures EncodedAll(es + [e]) == EncodedAll(es) + Encoded(e)
  {
    hide Encoded;
    if es == [] {
      assert [] + [e] == [e] && [e][1..] == [];
    } else {
      assert (es + [e])[1..] == es[1..] + [e];
      EncodedAllMore(es[1..], e);
    }
  }

  /** The replay reads back exactly the committed entries, ahead of a torn last one (of which some
      bytes, but not all, were written), if and only if every one of them is loggable and the torn one
      does not read early. */
  lemma {:induction false} ParsesCommitted(d: seq<Byte>, p: nat, es: seq<Entry>, last: Entry, n: nat)
    requires AllGood(es) && GoodEntry(last) && n < |Encoded(last)| && LogFrom(d, p, es, last, n)
    ensures ParseLog(d, p) == es <==> AllLoggable(es) && !ReadsEarly(last, n)
    decreases |es|
  {
    hide ParseLog, Encoded, Loggable, BytesAt, GoodEntry, ReadsEarly;
    if es == [] {
      TornIsIgnoredIff(d, p, last, n);
    } else {
      var e, rest, q := es[0], es[1..], p + |Encoded(es[0])|;
      assert forall i :: 0 <= i < |rest| ==> rest[i] == es[i + 1];
      assert forall i :: 1 <= i < |es| ==> es[i] == rest[i - 1];
      ParsesCommitted(d, q, rest, last, n);
      FirstIsParsedIff(d, p, e);
      SplitFirst(ParseLog(d, p), ParseLog(d, q), es);
    }
  }

  lemma SplitFirst(all: seq<Entry>, more: seq<Entry>, es: seq<Entry>)
    requires es != []
    ensures all == [es[0]] + more ==> (all == es <==> more == es[1..])
  {
    assert es == [es[0]] + es[1..];
  }
}
