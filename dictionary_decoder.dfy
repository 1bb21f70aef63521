/** The dictionary decoder: rebuilds text from LZW codes.

    The dictionary starts with one single-character entry per byte value. Every code
    after the first adds one entry under key `dictSize`: the previous entry followed by
    the first character of the current one. The counter `dictSize` runs from 256 up
    and goes back to 256 when it reaches 4096; the dictionary itself is never cleared,
    so entries learned before a wrap keep resolving until they are overwritten. */
module DictionaryDecoder {
  import opened Results

  /** The first key that is not a single byte; also where the counter restarts. */
  const FirstFreeCode := 256
  /** The counter never reaches this value: it restarts at `FirstFreeCode` instead. */
  const DictionaryLimit := 4096
  /** Number of insertions after which the counter is back at `FirstFreeCode`. */
  const WrapPeriod := DictionaryLimit - FirstFreeCode
  /** The largest argument Python's `chr` accepts. */
  const MaxCodePoint := 0x10FFFF

  /** Text as a sequence of Unicode code points. */
  type Text = seq<int>

  /** Python's `chr`: a one-character text, or an error outside the code point range. */
  function Chr(c: int): (r: Result<Text>)
    ensures r.Success? <==> 0 <= c <= MaxCodePoint
    ensures r.Success? ==> |r.value| == 1 && r.value[0] == c
  {
    if 0 <= c <= MaxCodePoint then Success([c]) else Failure(BadCharacter(c))
  }

  /** Keys 0 to 255, each mapped to the character with that code. */
  function InitialDictionary(): (d: map<int, Text>)
    ensures forall k :: k in d <==> 0 <= k < FirstFreeCode
  {
    map i | 0 <= i < FirstFreeCode :: [i]
  }

  /** Everything the decode loop updates: the dictionary, its insertion counter, the
      previous entry and the text written so far. */
  datatype State = State(dictionary: map<int, Text>, dictSize: int, previous: Text, text: Text)

  /** What holds of the loop state at every step: the counter is in range, the byte
      entries are intact, every key is a 12-bit code with a non-empty entry, every key
      below the counter is present, and the previous entry is non-empty. */
  ghost predicate Valid(st: State) {
    && FirstFreeCode <= st.dictSize < DictionaryLimit
    && (forall i :: 0 <= i < FirstFreeCode ==> i in st.dictionary && st.dictionary[i] == [i])
    && (forall k :: k in st.dictionary ==> 0 <= k < DictionaryLimit && |st.dictionary[k]| > 0)
    && (forall k :: 0 <= k < st.dictSize ==> k in st.dictionary)
    && |st.previous| > 0
  }

  /** The state right after the first code has been converted to `first`. */
  function Initial(first: Text): (st: State)
    requires |first| > 0
    ensures Valid(st)
  {
    State(InitialDictionary(), FirstFreeCode, first, first)
  }

  /** The second half of a step, once the current entry is known: learn the previous
      entry plus the entry's first character under `dictSize`, advance the counter
      with its wrap, and write the entry. */
  function Learn(st: State, entry: Text): (r: State)
    requires Valid(st) && |entry| > 0
    ensures Valid(r)
    ensures r.previous == entry && r.text == st.text + entry
    ensures st.dictSize in r.dictionary && r.dictionary[st.dictSize] == st.previous + [entry[0]]
    ensures r.dictionary.Keys == st.dictionary.Keys + {st.dictSize}
    ensures r.dictSize == (if st.dictSize + 1 == DictionaryLimit then FirstFreeCode else st.dictSize + 1)
    ensures forall k :: k in st.dictionary && k != st.dictSize ==> k in r.dictionary && r.dictionary[k] == st.dictionary[k]
  {
    var dictSize := st.dictSize + 1;
    State(st.dictionary[st.dictSize := st.previous + [entry[0]]],
          if dictSize == DictionaryLimit then FirstFreeCode else dictSize,
          entry, st.text + entry)
  }

  /** One iteration of the decode loop. A code that is a key resolves to its entry,
      even after a wrap; otherwise only the key about to be defined is allowed, and it
      stands for the previous entry plus its own first character. */
  function Step(st: State, code: int): (r: Result<State>)
    requires Valid(st)
    ensures r.Success? <==> code in st.dictionary || code == st.dictSize
    ensures r.Failure? ==> r.error == UnknownCode(code)
    ensures r.Success? ==> Valid(r.value) && r.value.text == st.text + r.value.previous
    ensures r.Success? && code in st.dictionary ==> r.value.previous == st.dictionary[code]
    ensures r.Success? && code !in st.dictionary ==> r.value.previous == st.previous + [st.previous[0]]
  {
    if code in st.dictionary then Success(Learn(st, st.dictionary[code]))
    else if code == st.dictSize then Success(Learn(st, st.previous + [st.previous[0]]))
    else Failure(UnknownCode(code))
  }

  /** The loop run over `codes` in order, stopping at the first unknown code. Text is
      only ever appended to, at least one character per code. */
  function Run(st: State, codes: seq<int>): (r: Result<State>)
    requires Valid(st)
    ensures r.Success? ==> Valid(r.value)
    ensures r.Success? ==> |r.value.text| >= |st.text| + |codes| && r.value.text[..|st.text|] == st.text
    decreases |codes|
  {
    if codes == [] then Success(st)
    else
      match Run(st, codes[..|codes| - 1])
      case Failure(e) => Failure(e)
      case Success(mid) => Step(mid, codes[|codes| - 1])
  }

  /** The outcome of the whole decode: an empty list has nothing to pop, the first
      code goes through `chr` (it is not looked up), the rest run through the loop. */
  function Decoded(codes: seq<int>): (r: Result<Text>)
    ensures codes == [] ==> r == Failure(EmptyInput)
    ensures codes != [] && !(0 <= codes[0] <= MaxCodePoint) ==> r == Failure(BadCharacter(codes[0]))
    ensures r.Success? ==> |r.value| >= |codes| && r.value[0] == codes[0]
  {
    if codes == [] then Failure(EmptyInput)
    else
      match Chr(codes[0])
      case Failure(e) => Failure(e)
      case Success(first) =>
        match Run(Initial(first), codes[1..])
        case Failure(e) => Failure(e)
        case Success(last) => Success(last.text)
  }

  /** The caller's list of codes, which the decoder shortens by popping its head. */
  class CodeList {
    var items: seq<int>

    constructor (items: seq<int>)
      ensures this.items == items
    {
      this.items := items;
    }

    /** `pop(0)`: removes and returns the first code; fails on an empty list. */
    method PopFront() returns (r: Result<int>)
      modifies this
      ensures old(items) == [] ==> r == Failure(EmptyInput) && items == []
      ensures old(items) != [] ==> r == Success(old(items)[0]) && items == old(items)[1..]
    {
      if items == [] {
        return Failure(EmptyInput);
      }
      r := Success(items[0]);
      items := items[1..];
    }
  }

  /** Decodes the codes in `archiveCodes`, removing the first one from the caller's
      list, with a mutable dictionary, counter, previous entry and append-only text. */
  method DecodeToText(archiveCodes: CodeList) returns (r: Result<Text>)
    modifies archiveCodes
    ensures archiveCodes.items == if old(archiveCodes.items) == [] then [] else old(archiveCodes.items)[1..]
    ensures r == Decoded(old(archiveCodes.items))
  {
    var dictSize := FirstFreeCode;
    var dictionary := InitialDictionary();

    var head := archiveCodes.PopFront();
    if head.Failure? {
      return Failure(head.error);
    }
    var firstChar := Chr(head.value);
    if firstChar.Failure? {
      return Failure(firstChar.error);
    }
    var previousCode := firstChar.value;
    var text := previousCode;

    ghost var start := Initial(previousCode);
    var codes := archiveCodes.items;
    var i := 0;
    assert codes[..i] == [] && Run(start, []) == Success(start);
    assert old(archiveCodes.items)[1..] == codes && old(archiveCodes.items)[0] == head.value;
    while i < |codes|
      invariant 0 <= i <= |codes|
      invariant archiveCodes.items == codes
      invariant Run(start, codes[..i]) == Success(State(dictionary, dictSize, previousCode, text))
    {
      var code := codes[i];
      ghost var before := State(dictionary, dictSize, previousCode, text);
      var dictEntry;
      if code in dictionary {
        dictEntry := dictionary[code];
      } else if code == dictSize {
        dictEntry := previousCode + [previousCode[0]];
      } else {
        assert Run(start, codes) == Failure(UnknownCode(code)) by {
          LoopStops(start, codes, i, before);
        }
        return Failure(UnknownCode(code));
      }

      dictionary := dictionary[dictSize := previousCode + [dictEntry[0]]];
      dictSize := dictSize + 1;
      if dictSize == DictionaryLimit {
        dictSize := FirstFreeCode;
      }

      text := text + dictEntry;
      previousCode := dictEntry;
      assert Run(start, codes[..i + 1]) == Success(State(dictionary, dictSize, previousCode, text)) by {
        LoopBody(start, codes, i, before, dictEntry, State(dictionary, dictSize, previousCode, text));
      }
      i := i + 1;
    }
    assert codes[..i] == codes;
    return Success(text);
  }

  // ---------------------------------------------------------------------------
  // Properties of the loop
  // ---------------------------------------------------------------------------

  /** Continues a run from an outcome: a failure stays the same failure. */
  function Then(r: Result<State>, codes: seq<int>): (s: Result<State>)
    requires r.Success? ==> Valid(r.value)
  {
    match r
    case Failure(e) => Failure(e)
    case Success(st) => Run(st, codes)
  }

  /** Running two pieces one after the other is running their concatenation. */
  lemma {:induction false} RunAppend(st: State, s: seq<int>, t: seq<int>)
    requires Valid(st)
    ensures Run(st, s + t) == Then(Run(st, s), t)
    decreases |t|
  {
    if t == [] {
      assert s + t == s;
    } else {
      var n := |t| - 1;
      assert (s + t)[..|s + t| - 1] == s + t[..n];
      RunAppend(st, s, t[..n]);
    }
  }

  /** One step on a code that resolves, written out the way the loop body updates
      its variables. */
  lemma StepUpdate(st: State, code: int)
    requires Valid(st) && (code in st.dictionary || code == st.dictSize)
    ensures |st.previous| > 0
    ensures var entry := if code in st.dictionary then st.dictionary[code] else st.previous + [st.previous[0]];
      var dictSize := st.dictSize + 1;
      Step(st, code) == Success(State(st.dictionary[st.dictSize := st.previous + [entry[0]]],
                                      if dictSize == DictionaryLimit then FirstFreeCode else dictSize,
                                      entry, st.text + entry))
  {
  }

  /** One more turn of the loop, written out the way its body updates its variables:
      `entry` is what the code resolves to and `after` the updated variables. */
  lemma LoopBody(start: State, codes: seq<int>, i: nat, st: State, entry: Text, after: State)
    requires Valid(start) && i < |codes| && Run(start, codes[..i]) == Success(st)
    requires codes[i] in st.dictionary ==> entry == st.dictionary[codes[i]]
    requires codes[i] !in st.dictionary ==> codes[i] == st.dictSize && |st.previous| > 0 && entry == st.previous + [st.previous[0]]
    requires |entry| > 0
    requires after == State(st.dictionary[st.dictSize := st.previous + [entry[0]]],
                            if st.dictSize + 1 == DictionaryLimit then FirstFreeCode else st.dictSize + 1,
                            entry, st.text + entry)
    ensures Run(start, codes[..i + 1]) == Success(after)
  {
    RunOneMore(start, codes, i, st);
    StepUpdate(st, codes[i]);
  }

  /** A code that does not resolve ends the loop, and with it the whole run. */
  lemma LoopStops(start: State, codes: seq<int>, i: nat, st: State)
    requires Valid(start) && i < |codes| && Run(start, codes[..i]) == Success(st)
    requires codes[i] !in st.dictionary && codes[i] != st.dictSize
    ensures Run(start, codes) == Failure(UnknownCode(codes[i]))
  {
    var e := UnknownCode(codes[i]);
    assert Run(start, codes[..i + 1]) == Failure(e) by {
      RunOneMore(start, codes, i, st);
    }
    RunStopsAtError(start, codes, i + 1, e);
  }

  /** The loop over one more code is one more step. */
  lemma RunOneMore(start: State, codes: seq<int>, i: nat, st: State)
    requires Valid(start) && i < |codes| && Run(start, codes[..i]) == Success(st)
    ensures Run(start, codes[..i + 1]) == Step(st, codes[i])
  {
    assert codes[..i + 1][..i] == codes[..i];
  }

  /** Once an unknown code stops the loop, no later code changes the outcome. */
  lemma {:induction false} RunStopsAtError(st: State, codes: seq<int>, k: nat, e: Error)
    requires Valid(st) && k <= |codes| && Run(st, codes[..k]) == Failure(e)
    ensures Run(st, codes) == Failure(e)
    decreases |codes| - k
  {
    if k == |codes| {
      assert codes[..k] == codes;
    } else {
      var n := |codes| - 1;
      assert codes[..n][..k] == codes[..k];
      RunStopsAtError(st, codes[..n], k, e);
    }
  }

  /** A successful decode of a prefix that the whole list extends: the prefix's text
      is a prefix of the whole text; a failing prefix makes the whole decode fail the
      same way, so no partial text is ever produced. */
  lemma DecodedPrefix(codes: seq<int>, k: nat)
    requires 1 <= k <= |codes|
    ensures Decoded(codes[..k]).Failure? ==> Decoded(codes) == Decoded(codes[..k])
    ensures Decoded(codes).Success? ==>
      Decoded(codes[..k]).Success? && Decoded(codes[..k]).value <= Decoded(codes).value
  {
    var prefix := codes[..k];
    if Chr(codes[0]).Success? {
      var st := Initial(Chr(codes[0]).value);
      assert prefix[1..] + codes[k..] == codes[1..];
      RunAppend(st, prefix[1..], codes[k..]);
    }
  }

  function Min(a: int, b: int): (m: int) {
    if a < b then a else b
  }

  /** The counter and the key set of the dictionary after `n` insertions. */
  ghost predicate Shape(st: State, n: nat) {
    && st.dictSize == FirstFreeCode + n % WrapPeriod
    && forall k :: k in st.dictionary <==> 0 <= k < FirstFreeCode + Min(n, WrapPeriod)
  }

  lemma NextCounter(n: nat)
    ensures var next := FirstFreeCode + n % WrapPeriod + 1;
      (if next == DictionaryLimit then FirstFreeCode else next) == FirstFreeCode + (n + 1) % WrapPeriod
  {}

  /** Where the counter sits relative to the keys below it: at their end before the
      first wrap, inside them afterwards. */
  lemma KeyRange(n: nat)
    ensures n < WrapPeriod ==> FirstFreeCode + n % WrapPeriod == FirstFreeCode + Min(n, WrapPeriod)
                               && Min(n + 1, WrapPeriod) == Min(n, WrapPeriod) + 1
    ensures n >= WrapPeriod ==> FirstFreeCode + n % WrapPeriod < FirstFreeCode + Min(n, WrapPeriod)
                                && Min(n + 1, WrapPeriod) == Min(n, WrapPeriod)
  {}

  /** Learning an entry is one more insertion. */
  lemma LearnShape(st: State, n: nat, entry: Text)
    requires Valid(st) && Shape(st, n) && |entry| > 0
    ensures Shape(Learn(st, entry), n + 1)
  {
    NextCounter(n);
    KeyRange(n);
    var r := Learn(st, entry);
    forall k
      ensures k in r.dictionary <==> 0 <= k < FirstFreeCode + Min(n + 1, WrapPeriod)
    {
      assert k in r.dictionary.Keys <==> k in st.dictionary.Keys || k == st.dictSize;
    }
  }

  /** One successful step is one more insertion. */
  lemma StepShape(st: State, n: nat, code: int)
    requires Valid(st) && Shape(st, n) && Step(st, code).Success?
    ensures Shape(Step(st, code).value, n + 1)
  {
    var entry := if code in st.dictionary then st.dictionary[code] else st.previous + [st.previous[0]];
    LearnShape(st, n, entry);
  }

  /** After `n` codes following the first, the counter is `256 + n mod 3840` and the
      keys are exactly the codes below `256 + min(n, 3840)`: the counter wraps for the
      first time at the 3840th insertion, and from then on every 12-bit code is a key,
      because a wrap rewinds the counter and clears nothing. */
  lemma {:induction false} CounterAndKeys(first: Text, codes: seq<int>)
    requires |first| > 0 && Run(Initial(first), codes).Success?
    ensures Shape(Run(Initial(first), codes).value, |codes|)
    decreases |codes|
  {
    if codes != [] {
      var n := |codes| - 1;
      CounterAndKeys(first, codes[..n]);
      StepShape(Run(Initial(first), codes[..n]).value, n, codes[n]);
    }
  }

  /** Which codes the next step accepts after `n` codes following the first: before
      the first wrap exactly the keys so far and the one about to be defined, after it
      every 12-bit code, and never a negative code or one of 4096 and above. */
  lemma AcceptedCodes(first: Text, codes: seq<int>, code: int)
    requires |first| > 0 && Run(Initial(first), codes).Success?
    ensures Step(Run(Initial(first), codes).value, code).Success? <==>
      0 <= code < FirstFreeCode + Min(|codes| + 1, WrapPeriod)
  {
    CounterAndKeys(first, codes);
    ShapeAccepts(Run(Initial(first), codes).value, |codes|, code);
  }

  lemma ShapeAccepts(st: State, n: nat, code: int)
    requires Valid(st) && Shape(st, n)
    ensures Step(st, code).Success? <==> 0 <= code < FirstFreeCode + Min(n + 1, WrapPeriod)
  {
    assert code in st.dictionary <==> 0 <= code < FirstFreeCode + Min(n, WrapPeriod);
    if n < WrapPeriod {
      assert n % WrapPeriod == n;
    }
  }

  // ---------------------------------------------------------------------------
  // Characters of the output
  // ---------------------------------------------------------------------------

  /** A character the decoder can produce when the first code was `first`. */
  predicate InAlphabet(ch: int, first: int) {
    0 <= ch < FirstFreeCode || ch == first
  }

  predicate AllInAlphabet(t: Text, first: int) {
    forall j :: 0 <= j < |t| ==> InAlphabet(t[j], first)
  }

  /** Every entry, the previous entry and the text use only byte characters and the
      character of the first code. */
  ghost predicate Alphabet(st: State, first: int) {
    && (forall k :: k in st.dictionary ==> AllInAlphabet(st.dictionary[k], first))
    && AllInAlphabet(st.previous, first)
    && AllInAlphabet(st.text, first)
  }

  lemma StepAlphabet(st: State, code: int, first: int)
    requires Valid(st) && Alphabet(st, first) && Step(st, code).Success?
    ensures Alphabet(Step(st, code).value, first)
  {
    var r := Step(st, code).value;
    assert AllInAlphabet(r.previous, first);
    assert r.dictionary == st.dictionary[st.dictSize := st.previous + [r.previous[0]]];
  }

  lemma {:induction false} RunAlphabet(st: State, codes: seq<int>, first: int)
    requires Valid(st) && Alphabet(st, first) && Run(st, codes).Success?
    ensures Alphabet(Run(st, codes).value, first)
    decreases |codes|
  {
    if codes != [] {
      var n := |codes| - 1;
      RunAlphabet(st, codes[..n], first);
      StepAlphabet(Run(st, codes[..n]).value, codes[n], first);
    }
  }

  /** The decoded text consists of byte characters and the character of the first
      code only: a first code of 256 or more is accepted by `chr` and its character
      can reappear through the dictionary, but no other character ever appears. */
  lemma DecodedAlphabet(codes: seq<int>)
    requires Decoded(codes).Success?
    ensures forall j :: 0 <= j < |Decoded(codes).value| ==> InAlphabet(Decoded(codes).value[j], codes[0])
  {
    var first := Chr(codes[0]).value;
    var st := Initial(first);
    assert Alphabet(st, codes[0]);
    RunAlphabet(st, codes[1..], codes[0]);
  }

  // ---------------------------------------------------------------------------
  // Worked cases
  // ---------------------------------------------------------------------------

  /** A single code decodes to its own character and the dictionary is left as it
      was seeded (the second clause holds by the definitions of `Run` and `Initial`:
      an empty loop changes nothing). */
  lemma SingleCode(c: int)
    requires 0 <= c <= MaxCodePoint
    ensures Decoded([c]) == Success([c])
    ensures Run(Initial([c]), []) == Success(Initial([c])) && Initial([c]).dictionary == InitialDictionary()
  {
    assert [c][1..] == [];
  }

  /** The code being defined in the same step, which is not yet a key and stands for
      the previous entry plus its own first character: 65 then 256 gives AAA (on the
      first step), and 65, 66, 257 gives ABBB (after key 256 = AB has been learned). */
  lemma SelfReferentialCode()
    ensures Decoded([65, 256]) == Success([65, 65, 65])
    ensures Decoded([65, 66, 257]) == Success([65, 66, 66, 66])
  {
    var st := Initial([65]);
    assert [65, 256][1..] == [256] && [256][..0] == [];
    assert 256 !in st.dictionary;
    assert Step(st, 256).value.text == [65, 65, 65];
    CounterCodeAfterInsertion();
  }

  /** After 65, 66 key 256 holds AB and the counter is 257, which is not yet a key. */
  lemma CounterCodeAfterInsertion()
    ensures Decoded([65, 66, 257]) == Success([65, 66, 66, 66])
  {
    var st := Initial([65]);
    assert [65, 66, 257][1..] == [66, 257] && [66, 257][..1] == [66] && [66][..0] == [];
    var s1 := Step(st, 66).value;
    assert s1.dictSize == 257 && s1.previous == [66] && s1.text == [65, 66] && 257 !in s1.dictionary;
    assert Step(s1, 257).value.text == [65, 66, 66, 66];
  }

  /** A code learned one step earlier is already a key: after 65, 65 key 256 holds AA
      and the counter is 257, so 65, 65, 256 resolves 256 by lookup and gives AAAA. */
  lemma KeyLearnedOneStepEarlier()
    ensures var s1 := Step(Initial([65]), 65).value;
      256 in s1.dictionary && s1.dictionary[256] == [65, 65] && s1.dictSize == 257
    ensures Decoded([65, 65, 256]) == Success([65, 65, 65, 65])
  {
    var st := Initial([65]);
    assert [65, 65, 256][1..] == [65, 256] && [65, 256][..1] == [65] && [65][..0] == [];
    var s1 := Step(st, 65).value;
    assert s1.dictSize == 257 && s1.previous == [65] && s1.text == [65, 65];
    assert Step(s1, 256).value.text == [65, 65, 65, 65];
  }

  /** `k` copies of code 65 after a first code 66 (B, then A k times). */
  function As(k: nat): (codes: seq<int>) {
    seq(k, _ => 65)
  }

  lemma AsSnoc(k: nat)
    requires k >= 1
    ensures [66] + As(k) == [66] + As(k - 1) + [65]
  {
    assert As(k) == As(k - 1) + [65];
  }

  lemma {:induction false} AfterAs(k: nat)
    requires 1 <= k <= WrapPeriod
    ensures Run(Initial([66]), As(k)).Success?
    ensures var st := Run(Initial([66]), As(k)).value;
      st.previous == [65] && st.text == [66] + As(k) && 256 in st.dictionary && st.dictionary[256] == [66, 65]
    decreases k
  {
    if k == 1 {
      assert As(1)[..0] == [] && As(1)[0] == 65;
      assert 65 in Initial([66]).dictionary;
    } else {
      assert As(k)[..k - 1] == As(k - 1) && As(k)[k - 1] == 65;
      AfterAs(k - 1);
      CounterAndKeys([66], As(k - 1));
      AStep(Run(Initial([66]), As(k - 1)).value, k - 1);
      AsSnoc(k);
    }
  }

  lemma AStep(st: State, j: nat)
    requires Valid(st) && 1 <= j < WrapPeriod && Shape(st, j)
    requires st.previous == [65] && 256 in st.dictionary && st.dictionary[256] == [66, 65]
    ensures Step(st, 65).Success?
    ensures var r := Step(st, 65).value;
      r.previous == [65] && r.text == st.text + [65] && 256 in r.dictionary && r.dictionary[256] == [66, 65]
  {
    assert j % WrapPeriod == j;
  }

  /** The dictionary is not cleared when the counter wraps. After B and 3840 copies of
      A the counter is back at 256, and key 256 still holds the stale entry BA learned
      at the first step, so code 256 decodes to BA; a dictionary reset to its 256 seed
      entries would have decoded it to AA, the previous entry plus its first character. */
  lemma StaleEntryAfterWrap()
    ensures Run(Initial([66]), As(WrapPeriod)).Success?
    ensures var st := Run(Initial([66]), As(WrapPeriod)).value;
      st.dictSize == FirstFreeCode && st.previous + [st.previous[0]] == [65, 65]
    ensures Decoded([66] + As(WrapPeriod) + [256]) == Success([66] + As(WrapPeriod) + [66, 65])
  {
    AfterAs(WrapPeriod);
    var st := Run(Initial([66]), As(WrapPeriod)).value;
    assert st.dictSize == FirstFreeCode by {
      CounterAndKeys([66], As(WrapPeriod));
    }
    var codes := [66] + As(WrapPeriod) + [256];
    assert Decoded(codes) == Success([66] + As(WrapPeriod) + [66, 65]) by {
      assert codes[1..] == As(WrapPeriod) + [256];
      assert codes[1..][..WrapPeriod] == As(WrapPeriod);
      assert Step(st, 256).value.text == [66] + As(WrapPeriod) + [66, 65];
    }
  }
}
