/**
 * The option area of a TCP header: `raw_options` (the concatenation of the
 * options' encodings) and the left-to-right scan of the decode constructor.
 */
module OptionScan {
  import opened Wrappers
  import opened Bytes
  import opened TcpOptions

  /** `raw_options`: each option's encoding, in list order. */
  function EncodeOptions(opts: seq<TcpOption>): (r: seq<byte>)
    ensures |r| >= |opts|
    ensures opts != [] ==> r[0] == opts[0].kind
  {
    if opts == [] then [] else RawOption(opts[0]) + EncodeOptions(opts[1..])
  }

  lemma {:induction false} EncodeOptionsAppend(a: seq<TcpOption>, b: seq<TcpOption>)
    ensures EncodeOptions(a + b) == EncodeOptions(a) + EncodeOptions(b)
  {
    if a == [] {
      assert a + b == b;
    } else {
      assert (a + b)[1..] == a[1..] + b;
      EncodeOptionsAppend(a[1..], b);
    }
  }

  /** Appending an option only extends the encoding at its end. */
  lemma EncodeOptionsSnoc(a: seq<TcpOption>, o: TcpOption)
    ensures EncodeOptions(a + [o]) == EncodeOptions(a) + RawOption(o)
  {
    EncodeOptionsAppend(a, [o]);
    assert [o][1..] == [];
  }

  /** Options the scan can read back: each canonical, and End-Of-List only last. */
  predicate WellFormedChain(opts: seq<TcpOption>)
  {
    && (forall k :: 0 <= k < |opts| ==> Canonical(opts[k]))
    && (forall k :: 0 <= k < |opts| - 1 ==> !opts[k].Eol?)
  }

  /** A well-formed chain whose unknown options carry no payload (which TcpOptUnk as written would drop). */
  predicate AsWrittenChain(opts: seq<TcpOption>)
  {
    && WellFormedChain(opts)
    && (forall k :: 0 <= k < |opts| && opts[k].Unk? ==> opts[k].data == [])
  }

  function Normalized(opts: seq<TcpOption>): (r: seq<TcpOption>)
    ensures |r| == |opts|
  {
    seq(|opts|, k requires 0 <= k < |opts| => Normalize(opts[k]))
  }

  lemma {:induction false} EncodeNormalized(opts: seq<TcpOption>)
    ensures EncodeOptions(Normalized(opts)) == EncodeOptions(opts)
    decreases |opts|
  {
    if opts != [] {
      assert Normalized(opts)[1..] == Normalized(opts[1..]);
      EncodeNormalized(opts[1..]);
      NormalizeKeepsBytes(opts[0]);
    }
  }

  /** The state after one iteration of the scan loop. */
  datatype Step = Done(opts: seq<TcpOption>) | Next(at: nat, opts: seq<TcpOption>)

  /**
   * One iteration of the loop `while i < len(raw_options)` as written: EOL is
   * appended and ends the scan, NOP advances by one, and every other kind is
   * decoded from `raw_options[i : i + raw_options[i + 1]]` and then advances by
   * byte i + 1 of the RE-ENCODING of the options decoded so far
   * (`self.raw_options[i + 1]`).
   */
  function StepAt(area: seq<byte>, i: nat, opts: seq<TcpOption>): (r: Result<Step, DecodeError>)
    ensures i >= |area| ==> r == Success(Done(opts))
    ensures i < |area| && area[i] == EolKind ==> r == Success(Done(opts + [Eol(EolKind)]))
    ensures i < |area| && area[i] == NopKind ==> r == Success(Next(i + 1, opts + [Nop(NopKind)]))
    ensures r.Success? && r.value.Next? ==>
              i < |area| && i <= r.value.at &&
              |r.value.opts| == |opts| + 1 && r.value.opts[..|opts|] == opts
    ensures r.Success? && r.value.Next? && area[i] != NopKind ==>
              var enc := EncodeOptions(r.value.opts);
              i + 1 < |enc| && r.value.at == i + enc[i + 1]
  {
    if i >= |area| then Success(Done(opts))
    else if area[i] == EolKind then Success(Done(opts + [Eol(area[i])]))
    else if area[i] == NopKind then Success(Next(i + 1, opts + [Nop(area[i])]))
    else if i + 1 >= |area| then Failure(IndexError)
    else
      var o :- ParseOption(area[i], PySlice(area, i, i + area[i + 1] as int));
      var enc := EncodeOptions(opts + [o]);
      if i + 1 < |enc| then
        assert (opts + [o])[..|opts|] == opts;
        Success(Next(i + enc[i + 1], opts + [o]))
      else Failure(IndexError)
  }

  /**
   * The whole scan from cursor i with the options decoded so far. A step that
   * leaves the cursor where it was is reported as Diverges: the Python loop
   * then repeats that step forever (see StuckStepRepeats).
   */
  function ScanFrom(area: seq<byte>, i: nat, opts: seq<TcpOption>): (r: Result<seq<TcpOption>, DecodeError>)
    ensures r.Success? ==> |opts| <= |r.value| && r.value[..|opts|] == opts
    decreases |area| - i
  {
    match StepAt(area, i, opts)
    case Failure(e) => Failure(e)
    case Success(Done(found)) => Success(found)
    case Success(Next(j, found)) =>
      if j == i then Failure(Diverges)
      else
        var r := ScanFrom(area, j, found);
        assert r.Success? ==> r.value[..|found|][..|opts|] == r.value[..|opts|];
        r
  }

  /**
   * The decode constructor's option list for an option area: nothing for an
   * empty area, and an End-Of-List option, if read, is the last one.
   */
  function Scan(area: seq<byte>): (r: Result<seq<TcpOption>, DecodeError>)
    ensures area == [] ==> r == Success([])
    ensures r.Success? ==> forall k :: 0 <= k < |r.value| - 1 ==> !r.value[k].Eol?
  {
    ScanFromEolLast(area, 0, []);
    ScanFrom(area, 0, [])
  }

  /** The scan appends End-Of-List only as its last option. */
  lemma {:induction false} ScanFromEolLast(area: seq<byte>, i: nat, opts: seq<TcpOption>)
    requires forall k :: 0 <= k < |opts| ==> !opts[k].Eol?
    ensures var r := ScanFrom(area, i, opts);
            r.Success? ==> forall k :: 0 <= k < |r.value| - 1 ==> !r.value[k].Eol?
    decreases |area| - i
  {
    match StepAt(area, i, opts)
    case Failure(_) =>
    case Success(Done(found)) =>
    case Success(Next(j, found)) =>
      if j != i {
        assert !found[|opts|].Eol?;
        ScanFromEolLast(area, j, found);
      }
  }

  lemma ScanFromUnfold(area: seq<byte>, i: nat, opts: seq<TcpOption>, r: Step)
    requires StepAt(area, i, opts) == Success(r)
    ensures r.Done? ==> ScanFrom(area, i, opts) == Success(r.opts)
    ensures r.Next? && r.at != i ==> ScanFrom(area, i, opts) == ScanFrom(area, r.at, r.opts)
  {
  }

  /** The scan loop's branches one by one, as the TcpPacket decoder takes them. */
  lemma ScanFromEolNop(area: seq<byte>, i: nat, opts: seq<TcpOption>)
    requires i < |area|
    ensures area[i] == EolKind ==> ScanFrom(area, i, opts) == Success(opts + [Eol(area[i])])
    ensures area[i] == NopKind ==> ScanFrom(area, i, opts) == ScanFrom(area, i + 1, opts + [Nop(area[i])])
  {
  }

  predicate OtherKindAt(area: seq<byte>, i: nat)
  {
    i < |area| && area[i] != EolKind && area[i] != NopKind
  }

  function OptionBytesAt(area: seq<byte>, i: nat): seq<byte>
    requires i + 1 < |area|
  {
    PySlice(area, i, i + area[i + 1] as int)
  }

  lemma ScanFromShort(area: seq<byte>, i: nat, opts: seq<TcpOption>)
    requires OtherKindAt(area, i) && i + 1 >= |area|
    ensures ScanFrom(area, i, opts) == Failure(IndexError)
  {
  }

  lemma ScanFromBadOption(area: seq<byte>, i: nat, opts: seq<TcpOption>, e: DecodeError)
    requires OtherKindAt(area, i) && i + 1 < |area|
    requires ParseOption(area[i], OptionBytesAt(area, i)) == Failure(e)
    ensures ScanFrom(area, i, opts) == Failure(e)
  {
  }

  lemma ScanFromNoLengthByte(area: seq<byte>, i: nat, opts: seq<TcpOption>, o: TcpOption)
    requires OtherKindAt(area, i) && i + 1 < |area|
    requires ParseOption(area[i], OptionBytesAt(area, i)) == Success(o)
    requires i + 1 >= |EncodeOptions(opts + [o])|
    ensures ScanFrom(area, i, opts) == Failure(IndexError)
  {
  }

  lemma ScanFromStuck(area: seq<byte>, i: nat, opts: seq<TcpOption>, o: TcpOption)
    requires OtherKindAt(area, i) && i + 1 < |area|
    requires ParseOption(area[i], OptionBytesAt(area, i)) == Success(o)
    requires i + 1 < |EncodeOptions(opts + [o])| && EncodeOptions(opts + [o])[i + 1] == 0
    ensures ScanFrom(area, i, opts) == Failure(Diverges)
  {
    assert StepAt(area, i, opts) == Success(Next(i, opts + [o]));
  }

  lemma ScanFromAdvance(area: seq<byte>, i: nat, opts: seq<TcpOption>, o: TcpOption,
                        found: seq<TcpOption>, enc: seq<byte>, next: nat)
    requires OtherKindAt(area, i) && i + 1 < |area|
    requires ParseOption(area[i], OptionBytesAt(area, i)) == Success(o)
    requires found == opts + [o] && enc == EncodeOptions(found)
    requires i + 1 < |enc| && enc[i + 1] != 0 && next == i + enc[i + 1]
    ensures ScanFrom(area, i, opts) == ScanFrom(area, next, found)
  {
    StepAtOther(area, i, opts, o, found, enc, next);
    ScanFromUnfold(area, i, opts, Next(next, found));
  }

  /** The step over an option that is neither EOL nor NOP, with its parts named. */
  lemma StepAtOther(area: seq<byte>, i: nat, opts: seq<TcpOption>, o: TcpOption,
                    found: seq<TcpOption>, enc: seq<byte>, next: nat)
    requires OtherKindAt(area, i) && i + 1 < |area|
    requires ParseOption(area[i], OptionBytesAt(area, i)) == Success(o)
    requires found == opts + [o] && enc == EncodeOptions(found)
    requires i + 1 < |enc| && next == i + enc[i + 1]
    ensures StepAt(area, i, opts) == Success(Next(next, found))
  {
  }

  /** An option's bytes placed after `pre` in an option area. */
  lemma OptionInArea(pre: seq<byte>, ro: seq<byte>, tail: seq<byte>)
    requires |ro| >= 2
    ensures var area := pre + ro + tail;
            && |pre| + |ro| <= |area|
            && area[|pre|] == ro[0] && area[|pre| + 1] == ro[1]
            && area[|pre|..|pre| + |ro|] == ro
  {
    var area := pre + ro + tail;
    assert area[|pre|..|pre| + |ro|] == ro;
  }

  lemma ScanFixedFromUnfold(area: seq<byte>, i: nat, opts: seq<TcpOption>, r: Step)
    requires StepFixedAt(area, i, opts) == Success(r)
    ensures r.Done? ==> ScanFixedFrom(area, i, opts) == Success(r.opts)
    ensures r.Next? ==> ScanFixedFrom(area, i, opts) == ScanFixedFrom(area, r.at, r.opts)
  {
  }

  lemma ConcatAssoc<T>(a: seq<T>, b: seq<T>, c: seq<T>)
    ensures a + (b + c) == (a + b) + c
  {
  }

  /**
   * A step that does not move the cursor is followed by the very same step:
   * the re-encoding only grows at its end, so byte i + 1 stays 0, and the loop
   * never ends.
   */
  lemma {:induction false} StuckStepRepeats(area: seq<byte>, i: nat, opts: seq<TcpOption>)
    requires StepAt(area, i, opts).Success? && StepAt(area, i, opts).value == Next(i, StepAt(area, i, opts).value.opts)
    ensures var found := StepAt(area, i, opts).value.opts;
            StepAt(area, i, found) == Success(Next(i, found + [found[|found| - 1]]))
  {
    var found := StepAt(area, i, opts).value.opts;
    assert OtherKindAt(area, i);
    StepAtOtherParts(area, i, opts, i, found);
    var o := ParseOption(area[i], OptionBytesAt(area, i)).value;
    assert found[|found| - 1] == o;
    var enc := EncodeOptions(found + [o]);
    assert enc[i + 1] == EncodeOptions(found)[i + 1] by {
      EncodeOptionsSnoc(found, o);
    }
    StepAtOther(area, i, found, o, found + [o], enc, i);
  }

  /** What a step over an option that is neither EOL nor NOP is made of. */
  lemma StepAtOtherParts(area: seq<byte>, i: nat, opts: seq<TcpOption>, next: nat, found: seq<TcpOption>)
    requires OtherKindAt(area, i) && StepAt(area, i, opts) == Success(Next(next, found))
    ensures i + 1 < |area| && ParseOption(area[i], OptionBytesAt(area, i)).Success?
    ensures found == opts + [ParseOption(area[i], OptionBytesAt(area, i)).value]
    ensures i + 1 < |EncodeOptions(found)| && next == i + EncodeOptions(found)[i + 1]
  {
    StepAtOtherParsed(area, i, opts, next, found);
    StepAtOtherFound(area, i, opts, next, found);
    StepAtOtherNext(area, i, opts, next, found);
  }

  lemma StepAtOtherParsed(area: seq<byte>, i: nat, opts: seq<TcpOption>, next: nat, found: seq<TcpOption>)
    requires OtherKindAt(area, i) && StepAt(area, i, opts) == Success(Next(next, found))
    ensures i + 1 < |area| && ParseOption(area[i], OptionBytesAt(area, i)).Success?
  {
  }

  lemma StepAtOtherFound(area: seq<byte>, i: nat, opts: seq<TcpOption>, next: nat, found: seq<TcpOption>)
    requires OtherKindAt(area, i) && StepAt(area, i, opts) == Success(Next(next, found))
    requires i + 1 < |area| && ParseOption(area[i], OptionBytesAt(area, i)).Success?
    ensures found == opts + [ParseOption(area[i], OptionBytesAt(area, i)).value]
  {
  }

  lemma StepAtOtherNext(area: seq<byte>, i: nat, opts: seq<TcpOption>, next: nat, found: seq<TcpOption>)
    requires OtherKindAt(area, i) && StepAt(area, i, opts) == Success(Next(next, found))
    ensures i + 1 < |EncodeOptions(found)| && next == i + EncodeOptions(found)[i + 1]
  {
  }

  /**
   * The re-encoded advance agrees with the option's own length byte while the
   * options decoded so far re-encode to exactly the bytes they were read from,
   * and the new option re-encodes to its declared length.
   */
  lemma {:induction false} AdvanceFaithful(area: seq<byte>, i: nat, opts: seq<TcpOption>)
    requires i + 1 < |area| && area[i] != EolKind && area[i] != NopKind
    requires EncodeOptions(opts) == area[..i]
    requires StepAt(area, i, opts).Success?
    ensures StepAt(area, i, opts).value.Next?
    ensures var o := StepAt(area, i, opts).value.opts[|opts|];
            |RawOption(o)| >= 2 ==> StepAt(area, i, opts).value.at == i + RawOption(o)[1]
    ensures var o := StepAt(area, i, opts).value.opts[|opts|];
            o.length == area[i + 1] ==> StepAt(area, i, opts).value.at == i + area[i + 1]
  {
    var ro := PySlice(area, i, i + area[i + 1] as int);
    var o := ParseOption(area[i], ro).value;
    EncodeOptionsSnoc(opts, o);
  }

  lemma NormalizedCons(opts: seq<TcpOption>)
    requires opts != []
    ensures Normalized(opts) == [Normalize(opts[0])] + Normalized(opts[1..])
  {
  }

  lemma WellFormedTail(opts: seq<TcpOption>)
    requires WellFormedChain(opts) && opts != []
    ensures WellFormedChain(opts[1..])
    ensures AsWrittenChain(opts) ==> AsWrittenChain(opts[1..])
    ensures opts[0].Eol? ==> opts[1..] == []
  {
    assert 0 < |opts| - 1 ==> !opts[0].Eol?;
  }

  /**
   * With the options decoded so far re-encoding to the bytes before the
   * cursor, the scan as written reads a canonical option (without payload, if
   * unknown) from its bytes and moves past exactly those bytes.
   */
  lemma {:induction false} StepReadsOption(pre: seq<byte>, o: TcpOption, tail: seq<byte>, acc: seq<TcpOption>,
                                           area: seq<byte>, next: nat, found: seq<TcpOption>)
    requires Canonical(o) && (o.Unk? ==> o.data == [])
    requires EncodeOptions(acc) == pre
    requires area == pre + RawOption(o) + tail && next == |pre| + |RawOption(o)|
    requires found == acc + [Normalize(o)]
    ensures o.Eol? ==> StepAt(area, |pre|, acc) == Success(Done(found))
    ensures !o.Eol? ==> StepAt(area, |pre|, acc) == Success(Next(next, found))
  {
    if o.Eol? || o.Nop? {
      assert area[|pre|] == o.kind;
    } else {
      StepReadsOtherOption(pre, o, tail, acc, area, next, found);
    }
  }

  lemma StepReadsOtherOption(pre: seq<byte>, o: TcpOption, tail: seq<byte>, acc: seq<TcpOption>,
                             area: seq<byte>, next: nat, found: seq<TcpOption>)
    requires Canonical(o) && (o.Unk? ==> o.data == []) && !o.Eol? && !o.Nop?
    requires EncodeOptions(acc) == pre
    requires area == pre + RawOption(o) + tail && next == |pre| + |RawOption(o)|
    requires found == acc + [Normalize(o)]
    ensures StepAt(area, |pre|, acc) == Success(Next(next, found))
  {
    var ro := RawOption(o);
    var i := |pre|;
    CanonicalLength(o);
    OptionInArea(pre, ro, tail);
    assert OptionBytesAt(area, i) == ro;
    ParseOptionRoundTrip(o);
    var enc := EncodeOptions(found);
    assert enc == pre + ro by {
      EncodeOptionsSnoc(acc, Normalize(o));
      NormalizeKeepsBytes(o);
    }
    assert enc[i + 1] == ro[1];
    StepAtOther(area, i, acc, Normalize(o), found, enc, next);
  }

  lemma {:induction false} ScanRoundTripFrom(pre: seq<byte>, acc: seq<TcpOption>, rest: seq<TcpOption>)
    requires AsWrittenChain(rest) && EncodeOptions(acc) == pre
    ensures ScanFrom(pre + EncodeOptions(rest), |pre|, acc) == Success(acc + Normalized(rest))
    decreases |rest|
  {
    var area := pre + EncodeOptions(rest);
    if rest == [] {
      assert area == pre;
      assert acc + Normalized(rest) == acc;
      ScanFromUnfold(area, |pre|, acc, Done(acc));
    } else {
      var o := rest[0];
      var tail := EncodeOptions(rest[1..]);
      var pre' := pre + RawOption(o);
      var acc' := acc + [Normalize(o)];
      assert area == pre' + tail by {
        ConcatAssoc(pre, RawOption(o), tail);
      }
      assert acc + Normalized(rest) == acc' + Normalized(rest[1..]) by {
        NormalizedCons(rest);
        ConcatAssoc(acc, [Normalize(o)], Normalized(rest[1..]));
      }
      WellFormedTail(rest);
      if o.Eol? {
        assert StepAt(area, |pre|, acc) == Success(Done(acc')) by {
          StepReadsOption(pre, o, tail, acc, area, |pre'|, acc');
        }
        assert acc' + Normalized(rest[1..]) == acc';
        ScanFromUnfold(area, |pre|, acc, Done(acc'));
      } else {
        assert StepAt(area, |pre|, acc) == Success(Next(|pre'|, acc')) by {
          StepReadsOption(pre, o, tail, acc, area, |pre'|, acc');
        }
        ScanFromUnfold(area, |pre|, acc, Next(|pre'|, acc'));
        assert EncodeOptions(acc') == pre' by {
          EncodeOptionsSnoc(acc, Normalize(o));
          NormalizeKeepsBytes(o);
        }
        ScanRoundTripFrom(pre', acc', rest[1..]);
      }
    }
  }

  /**
   * The scan as written reads back the encoding of a well-formed chain whose
   * unknown options carry no payload, in order (SACK-permitted coming back as
   * an unknown option with the same bytes).
   */
  lemma ScanRoundTrip(opts: seq<TcpOption>)
    requires AsWrittenChain(opts)
    ensures Scan(EncodeOptions(opts)) == Success(Normalized(opts))
  {
    ScanRoundTripFrom([], [], opts);
    assert [] + EncodeOptions(opts) == EncodeOptions(opts);
    assert [] + Normalized(opts) == Normalized(opts);
  }

  // ---- The scan as evidently intended ----

  /**
   * One iteration with the advance taken from the option's own length byte
   * (`raw_options[i + 1]`), the corrected TcpOptUnk, and a length byte that
   * cannot be consumed reported as Malformed.
   */
  function StepFixedAt(area: seq<byte>, i: nat, opts: seq<TcpOption>): (r: Result<Step, DecodeError>)
    ensures r.Success? && r.value.Next? ==>
              i < r.value.at <= |area| &&
              |r.value.opts| == |opts| + 1 && r.value.opts[..|opts|] == opts
  {
    if i >= |area| then Success(Done(opts))
    else if area[i] == EolKind then Success(Done(opts + [Eol(area[i])]))
    else if area[i] == NopKind then Success(Next(i + 1, opts + [Nop(area[i])]))
    else if i + 1 >= |area| then Failure(Malformed)
    else
      var len := area[i + 1] as int;
      if len < 2 || i + len > |area| then Failure(Malformed)
      else
        var o :- ParseOptionFixed(area[i], area[i..i + len]);
        assert (opts + [o])[..|opts|] == opts;
        Success(Next(i + len, opts + [o]))
  }

  function ScanFixedFrom(area: seq<byte>, i: nat, opts: seq<TcpOption>): (r: Result<seq<TcpOption>, DecodeError>)
    ensures r.Success? ==> |opts| <= |r.value| && r.value[..|opts|] == opts
    decreases |area| - i
  {
    match StepFixedAt(area, i, opts)
    case Failure(e) => Failure(e)
    case Success(Done(found)) => Success(found)
    case Success(Next(j, found)) =>
      var r := ScanFixedFrom(area, j, found);
      assert r.Success? ==> r.value[..|found|][..|opts|] == r.value[..|opts|];
      r
  }

  function ScanFixed(area: seq<byte>): Result<seq<TcpOption>, DecodeError>
  {
    ScanFixedFrom(area, 0, [])
  }

  /** The corrected step over an option that is neither EOL nor NOP, with its parts named. */
  lemma StepFixedAtOther(area: seq<byte>, i: nat, opts: seq<TcpOption>, o: TcpOption, len: nat)
    requires OtherKindAt(area, i) && i + 1 < |area|
    requires len == area[i + 1] as int && 2 <= len && i + len <= |area|
    requires ParseOptionFixed(area[i], area[i..i + len]) == Success(o)
    ensures StepFixedAt(area, i, opts) == Success(Next(i + len, opts + [o]))
  {
  }

  lemma {:induction false} StepFixedReadsOption(pre: seq<byte>, o: TcpOption, tail: seq<byte>, acc: seq<TcpOption>,
                                                area: seq<byte>, next: nat, found: seq<TcpOption>)
    requires Canonical(o)
    requires area == pre + RawOption(o) + tail && next == |pre| + |RawOption(o)|
    requires found == acc + [Normalize(o)]
    ensures o.Eol? ==> StepFixedAt(area, |pre|, acc) == Success(Done(found))
    ensures !o.Eol? ==> StepFixedAt(area, |pre|, acc) == Success(Next(next, found))
  {
    var ro := RawOption(o);
    var i := |pre|;
    if o.Eol? || o.Nop? {
      assert area[i] == o.kind;
    } else {
      CanonicalLength(o);
      OptionInArea(pre, ro, tail);
      ParseOptionFixedRoundTrip(o);
      StepFixedAtOther(area, i, acc, Normalize(o), |ro|);
    }
  }

  lemma {:induction false} ScanFixedRoundTripFrom(pre: seq<byte>, acc: seq<TcpOption>, rest: seq<TcpOption>)
    requires WellFormedChain(rest)
    ensures ScanFixedFrom(pre + EncodeOptions(rest), |pre|, acc) == Success(acc + Normalized(rest))
    decreases |rest|
  {
    var area := pre + EncodeOptions(rest);
    if rest == [] {
      assert area == pre;
      assert acc + Normalized(rest) == acc;
      ScanFixedFromUnfold(area, |pre|, acc, Done(acc));
    } else {
      var o := rest[0];
      var tail := EncodeOptions(rest[1..]);
      var pre' := pre + RawOption(o);
      var acc' := acc + [Normalize(o)];
      assert area == pre' + tail by {
        ConcatAssoc(pre, RawOption(o), tail);
      }
      assert acc + Normalized(rest) == acc' + Normalized(rest[1..]) by {
        NormalizedCons(rest);
        ConcatAssoc(acc, [Normalize(o)], Normalized(rest[1..]));
      }
      WellFormedTail(rest);
      if o.Eol? {
        assert StepFixedAt(area, |pre|, acc) == Success(Done(acc')) by {
          StepFixedReadsOption(pre, o, tail, acc, area, |pre'|, acc');
        }
        assert acc' + Normalized(rest[1..]) == acc';
        ScanFixedFromUnfold(area, |pre|, acc, Done(acc'));
      } else {
        assert StepFixedAt(area, |pre|, acc) == Success(Next(|pre'|, acc')) by {
          StepFixedReadsOption(pre, o, tail, acc, area, |pre'|, acc');
        }
        ScanFixedFromUnfold(area, |pre|, acc, Next(|pre'|, acc'));
        ScanFixedRoundTripFrom(pre', acc', rest[1..]);
      }
    }
  }

  /**
   * The corrected scan reads back the encoding of every well-formed chain,
   * unknown options with payloads included.
   */
  lemma ScanFixedRoundTrip(opts: seq<TcpOption>)
    requires WellFormedChain(opts)
    ensures ScanFixed(EncodeOptions(opts)) == Success(Normalized(opts))
  {
    ScanFixedRoundTripFrom([], [], opts);
    assert [] + EncodeOptions(opts) == EncodeOptions(opts);
    assert [] + Normalized(opts) == Normalized(opts);
  }

  // ---- Where the code as written and the intended scan part ways ----

  /**
   * An MSS option whose length byte is 6 re-encodes in 4 bytes; the next
   * option's advance is then read from the wrong byte of the re-encoding,
   * which is too short: IndexError, where the intended scan reads all three.
   */
  lemma AdvanceFromReencodingExample()
    ensures Scan([2, 6, 5, 0xB4, 0, 0, 3, 3, 7, 1]) == Failure(IndexError)
    ensures ScanFixed([2, 6, 5, 0xB4, 0, 0, 3, 3, 7, 1])
            == Success([Mss(2, 6, 1460), Wscale(3, 3, 7), Nop(1)])
  {
    var area: seq<byte> := [2, 6, 5, 0xB4, 0, 0, 3, 3, 7, 1];
    assert PySlice(area, 0, 6) == [2, 6, 5, 0xB4, 0, 0];
    assert FromBE16([5, 0xB4]) == 1460;
    assert [2, 6, 5, 0xB4, 0, 0][2..4] == [5, 0xB4];
    var s1 := [Mss(2, 6, 1460)];
    assert EncodeOptions(s1) == [2, 6, 5, 0xB4];
    assert StepAt(area, 0, []) == Success(Next(6, s1));
    assert PySlice(area, 6, 9) == [3, 3, 7];
    var s2 := s1 + [Wscale(3, 3, 7)];
    EncodeOptionsSnoc(s1, Wscale(3, 3, 7));
    assert EncodeOptions(s2) == [2, 6, 5, 0xB4, 3, 3, 7];
    assert StepAt(area, 6, s1) == Failure(IndexError);
    assert area[0..6] == [2, 6, 5, 0xB4, 0, 0];
    assert StepFixedAt(area, 0, []) == Success(Next(6, s1));
    assert area[6..9] == [3, 3, 7];
    assert StepFixedAt(area, 6, s1) == Success(Next(9, s2));
    var s3 := s2 + [Nop(1)];
    assert StepFixedAt(area, 9, s2) == Success(Next(10, s3));
    assert ScanFixedFrom(area, 10, s3) == Success(s3);
    assert ScanFixedFrom(area, 9, s2) == Success(s3);
    assert ScanFixedFrom(area, 6, s1) == Success(s3);
    assert s3 == [Mss(2, 6, 1460), Wscale(3, 3, 7), Nop(1)];
  }

  /**
   * A window-scale option built from fields goes on the wire as [2, 4, scale]:
   * followed by a NOP it is read back as an MSS option; the corrected builder
   * round-trips.
   */
  lemma WscaleBuilderExample()
    ensures EncodeOptions([NewWscale(7), NewNop()]) == [2, 4, 7, 1]
    ensures Scan(EncodeOptions([NewWscale(7), NewNop()])) == Success([Mss(2, 4, 0x0701)])
    ensures Scan(EncodeOptions([NewWscaleFixed(7), NewNop()])) == Success([NewWscaleFixed(7), NewNop()])
  {
    var chain := [NewWscale(7), NewNop()];
    assert chain[..1] == [NewWscale(7)];
    var area: seq<byte> := [2, 4, 7, 1];
    assert EncodeOptions(chain) == area;
    assert PySlice(area, 0, 4) == area;
    assert area[2..4] == [7, 1];
    assert FromBE16([7, 1]) == 0x0701;
    assert EncodeOptions([Mss(2, 4, 0x0701)]) == area;
    assert StepAt(area, 0, []) == Success(Next(4, [Mss(2, 4, 0x0701)]));
    var fixed := [NewWscaleFixed(7), NewNop()];
    assert AsWrittenChain(fixed);
    ScanRoundTrip(fixed);
    assert Normalized(fixed) == fixed;
  }
}
