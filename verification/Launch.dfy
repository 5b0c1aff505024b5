/** Loading a user program (kernel/sched/scheduler.c:390-556, kernel/memory/address_space.c:566-639):
    the argument string is tokenised twice, once to count and once to copy, and packed behind the
    image data into the program's data page. */
module Launch {
  import opened FileBytes
  import opened SaturnFs
  import opened Executable
  import UserSpace
  import opened SpaceRecord

  const SPACE: Byte := 32
  const ARGUMENT_MAX := 128
  const ARG_MAX := 8
  const USER_DATA_START := 0x00200000

  // ---- tokens ----

  /** The end of the run of spaces from `i` on. */
  function SkipSpaces(a: Bytes, i: nat): (r: nat)
    requires i <= |a|
    ensures i <= r <= |a|
    ensures r < |a| ==> a[r] != SPACE
    ensures forall j :: i <= j < r ==> a[j] == SPACE
    decreases |a| - i
  {
    if i == |a| || a[i] != SPACE then i else SkipSpaces(a, i + 1)
  }

  /** The end of the token that covers `i`. */
  function SkipToken(a: Bytes, i: nat): (r: nat)
    requires i <= |a|
    ensures i <= r <= |a|
    ensures i < |a| && a[i] != SPACE ==> i < r
    ensures r < |a| ==> a[r] == SPACE
    ensures forall j :: i <= j < r ==> a[j] != SPACE
    decreases |a| - i
  {
    if i == |a| || a[i] == SPACE then i else SkipToken(a, i + 1)
  }

  /** The tokens of `a` from position `i` on. */
  function TokensFrom(a: Bytes, i: nat): (r: seq<Bytes>)
    requires i <= |a|
    decreases |a| - i
  {
    var s := SkipSpaces(a, i);
    if s == |a| then []
    else
      var e := SkipToken(a, s);
      [a[s..e]] + TokensFrom(a, e)
  }

  function Tokens(a: Bytes): seq<Bytes> {
    TokensFrom(a, 0)
  }

  predicate IsToken(t: Bytes) {
    t != [] && SPACE !in t
  }

  /** The bytes the copied strings take: each token and its NUL. */
  function StringBytes(ts: seq<Bytes>): nat {
    if ts == [] then 0 else |ts[0]| + 1 + StringBytes(ts[1..])
  }

  /** The tokens with their NULs, back to back. */
  function Strings(ts: seq<Bytes>): (r: Bytes)
    ensures |r| == StringBytes(ts)
  {
    if ts == [] then [] else ts[0] + [0] + Strings(ts[1..])
  }

  /** Tokens are separated by at least one space, so their strings need at most one byte more than
      the argument has. */
  lemma {:induction false} TokensFit(a: Bytes, i: nat)
    requires i <= |a|
    ensures StringBytes(TokensFrom(a, i)) <= |a| - i + 1
    ensures TokensFrom(a, i) == [] || StringBytes(TokensFrom(a, i)) <= |a| - SkipSpaces(a, i) + 1
    ensures forall k :: 0 <= k < |TokensFrom(a, i)| ==> IsToken(TokensFrom(a, i)[k])
    decreases |a| - i
  {
    var s := SkipSpaces(a, i);
    if s < |a| {
      var e := SkipToken(a, s);
      TokensFit(a, e);
      var rest := TokensFrom(a, e);
      assert TokensFrom(a, i)[1..] == rest;
      if rest != [] {
        assert a[e] == SPACE && SkipSpaces(a, e) >= e + 1;
      }
    }
  }

  /** The argument without its spaces: an independent description of what tokenising keeps. */
  function Solid(a: Bytes): Bytes {
    if a == [] then [] else (if a[0] == SPACE then [] else [a[0]]) + Solid(a[1..])
  }

  function Flat(ts: seq<Bytes>): Bytes {
    if ts == [] then [] else ts[0] + Flat(ts[1..])
  }

  lemma {:induction false} SolidConcat(a: Bytes, b: Bytes)
    ensures Solid(a + b) == Solid(a) + Solid(b)
    decreases |a|
  {
    if a == [] {
      assert a + b == b;
    } else {
      assert (a + b)[1..] == a[1..] + b;
      SolidConcat(a[1..], b);
    }
  }

  lemma {:induction false} SolidUniform(a: Bytes)
    ensures (forall i :: 0 <= i < |a| ==> a[i] == SPACE) ==> Solid(a) == []
    ensures (forall i :: 0 <= i < |a| ==> a[i] != SPACE) ==> Solid(a) == a
    decreases |a|
  {
    if a != [] {
      SolidUniform(a[1..]);
      assert a == [a[0]] + a[1..];
    }
  }

  lemma {:induction false} SolidParts(a: Bytes, i: nat, m: nat)
    requires i <= m <= |a|
    ensures Solid(a[i..]) == Solid(a[i..m]) + Solid(a[m..])
  {
    assert a[i..] == a[i..m] + a[m..];
    SolidConcat(a[i..m], a[m..]);
  }

  /** Tokenising keeps every non-space byte, in order, and nothing else. */
  lemma {:induction false} TokensKeepEverything(a: Bytes, i: nat)
    requires i <= |a|
    ensures Flat(TokensFrom(a, i)) == Solid(a[i..])
    decreases |a| - i
  {
    var s := SkipSpaces(a, i);
    SolidUniform(a[i..s]);
    SolidParts(a, i, s);
    if s < |a| {
      var e := SkipToken(a, s);
      SolidUniform(a[s..e]);
      SolidParts(a, s, e);
      TokensKeepEverything(a, e);
      assert TokensFrom(a, i)[1..] == TokensFrom(a, e);
    }
  }

  function Spaces(n: nat): (r: Bytes)
    ensures |r| == n && forall i :: 0 <= i < n ==> r[i] == SPACE
  {
    seq(n, i => SPACE)
  }

  /** Tokens with runs of spaces before, between and behind them. */
  function Spaced(ts: seq<Bytes>, gaps: seq<nat>): Bytes
    requires |gaps| == |ts| + 1
  {
    Spaces(gaps[0]) + if ts == [] then [] else ts[0] + Spaced(ts[1..], gaps[1..])
  }

  predicate Proper(ts: seq<Bytes>, gaps: seq<nat>) {
    && |gaps| == |ts| + 1
    && (forall i :: 0 <= i < |ts| ==> IsToken(ts[i])) && forall i :: 0 < i < |ts| ==> gaps[i] > 0
  }

  /** Tokenising undoes spacing out: the tokens are exactly the runs between spaces. */
  lemma {:induction false} TokensOfSpaced(before: Bytes, ts: seq<Bytes>, gaps: seq<nat>)
    requires Proper(ts, gaps)
    ensures TokensFrom(before + Spaced(ts, gaps), |before|) == ts
    decreases |ts|
  {
    var a, s := before + Spaced(ts, gaps), |before| + gaps[0];
    assert forall i :: |before| <= i < s ==> a[i] == SPACE;
    if ts == [] {
      assert SkipSpaces(a, |before|) == |a|;
    } else {
      var rest := Spaced(ts[1..], gaps[1..]);
      var before' := before + Spaces(gaps[0]) + ts[0];
      assert a == before' + rest;
      assert a[s..|before'|] == ts[0];
      FirstToken(a, |before|, s, |before'|, ts[0]);
      assert rest == [] || rest[0] == SPACE by { GapFirst(ts[1..], gaps[1..]); }
      TokensOfSpaced(before', ts[1..], gaps[1..]);
    }
  }

  lemma {:induction false} GapFirst(ts: seq<Bytes>, gaps: seq<nat>)
    requires |gaps| == |ts| + 1 && (ts != [] ==> gaps[0] > 0)
    ensures Spaced(ts, gaps) == [] || Spaced(ts, gaps)[0] == SPACE
  {
  }

  lemma {:induction false} FirstToken(a: Bytes, i: nat, s: nat, e: nat, token: Bytes)
    requires i <= s < e <= |a| && a[s..e] == token && IsToken(token) && (e < |a| ==> a[e] == SPACE)
    requires forall j :: i <= j < s ==> a[j] == SPACE
    ensures SkipSpaces(a, i) == s && SkipToken(a, s) == e
  {
    forall j | s <= j < e ensures a[j] != SPACE {
      assert a[j] == token[j - s] && token[j - s] in token;
    }
    var r := SkipToken(a, s);
    assert !(r < e) && !(e < r);
  }

  /** Every argument is its tokens spaced out. */
  lemma {:induction false} SpacedTokens(a: Bytes, i: nat) returns (gaps: seq<nat>)
    requires i <= |a|
    ensures Proper(TokensFrom(a, i), gaps) && a[i..] == Spaced(TokensFrom(a, i), gaps)
    ensures i < |a| && a[i] == SPACE ==> gaps[0] > 0
    decreases |a| - i
  {
    var s := SkipSpaces(a, i);
    if s == |a| {
      gaps := [s - i];
      assert a[i..] == Spaces(s - i);
    } else {
      var e := SkipToken(a, s);
      var rest := SpacedTokens(a, e);
      gaps := [s - i] + rest;
      SplitOff(a, i, s, e, TokensFrom(a, e), rest);
    }
  }

  lemma {:induction false} SplitOff(a: Bytes, i: nat, s: nat, e: nat, ts: seq<Bytes>, gaps: seq<nat>)
    requires i <= s < e <= |a| && (forall j :: i <= j < s ==> a[j] == SPACE) && forall j :: s <= j < e ==> a[j] != SPACE
    requires Proper(ts, gaps) && a[e..] == Spaced(ts, gaps) && (ts != [] ==> gaps[0] > 0)
    ensures Proper([a[s..e]] + ts, [s - i] + gaps) && a[i..] == Spaced([a[s..e]] + ts, [s - i] + gaps)
  {
    assert a[i..s] == Spaces(s - i);
    assert a[i..] == a[i..s] + (a[s..e] + a[e..]);
    OneMoreToken(s - i, a[s..e], ts, gaps);
  }

  lemma {:induction false} OneMoreToken(gap: nat, token: Bytes, ts: seq<Bytes>, gaps: seq<nat>)
    requires IsToken(token) && Proper(ts, gaps) && (ts != [] ==> gaps[0] > 0)
    ensures Proper([token] + ts, [gap] + gaps)
    ensures Spaced([token] + ts, [gap] + gaps) == Spaces(gap) + (token + Spaced(ts, gaps))
  {
    assert ([token] + ts)[1..] == ts && ([gap] + gaps)[1..] == gaps;
  }

  // ---- the data page ----

  /** (data_size + 7) & ~7. */
  function ArgumentBase(dataSize: nat): (r: nat)
    ensures dataSize <= r < dataSize + 8 && r % 8 == 0
  {
    (dataSize + 7) / 8 * 8
  }

  function StringsOffset(dataSize: nat): nat {
    ArgumentBase(dataSize) + 2 * ARG_MAX * 8
  }

  /** The argument checks of scheduler_create_user_task_from_image. */
  predicate ArgumentAccepted(dataSize: nat, a: Bytes) {
    |a| <= ARGUMENT_MAX && |Tokens(a)| <= ARG_MAX && StringsOffset(dataSize) + |a| + 1 <= PAGE
  }

  function Word64(n: nat): (r: Bytes)
    requires n < U32
    ensures |r| == 8
  {
    Word(n) + Zeros(4)
  }

  /** The user address of token k and its length; 0 for unused positions. */
  function ArgvEntry(ts: seq<Bytes>, strings: nat, k: nat): nat {
    if k < |ts| then USER_DATA_START + strings + StringBytes(ts[..k]) else 0
  }

  function LengthEntry(ts: seq<Bytes>, k: nat): nat {
    if k < |ts| then |ts[k]| else 0
  }

  /** The first n words of a table of eight. */
  function ArgvWords(ts: seq<Bytes>, strings: nat, n: nat): (r: Bytes)
    requires strings + StringBytes(ts) <= PAGE
    ensures |r| == 8 * n
  {
    if n == 0 then []
    else
      PrefixBytes(ts, n - 1);
      ArgvWords(ts, strings, n - 1) + Word64(ArgvEntry(ts, strings, n - 1))
  }

  function LengthWords(ts: seq<Bytes>, n: nat): (r: Bytes)
    requires StringBytes(ts) <= PAGE
    ensures |r| == 8 * n
  {
    if n == 0 then []
    else
      PrefixBytes(ts, n - 1);
      LengthWords(ts, n - 1) + Word64(LengthEntry(ts, n - 1))
  }

  lemma {:induction false} PrefixBytes(ts: seq<Bytes>, k: nat)
    ensures k <= |ts| ==> StringBytes(ts[..k]) <= StringBytes(ts)
    ensures k < |ts| ==> StringBytes(ts[..k]) + |ts[k]| + 1 <= StringBytes(ts)
    ensures k < |ts| ==> StringBytes(ts[..k + 1]) == StringBytes(ts[..k]) + |ts[k]| + 1
    decreases k
  {
    if 0 < k <= |ts| {
      PrefixBytes(ts[1..], k - 1);
      assert ts[..k][1..] == ts[1..][..k - 1];
      if k < |ts| { assert ts[..k + 1][1..] == ts[1..][..k]; }
    } else if k == 0 && ts != [] {
      assert ts[..1][1..] == [];
    }
  }

  /** Data, padding, the two tables, the strings, zeros. */
  function Assembled(data: Bytes, base: nat, argv: Bytes, lengths: Bytes, strings: Bytes): (r: Bytes)
    requires |data| <= base && base + 128 + |strings| <= PAGE && |argv| == 64 && |lengths| == 64
    ensures |r| == PAGE && r[..|data|] == data && r[base..base + 64] == argv && r[base + 64..base + 128] == lengths
    ensures r[base + 128..base + 128 + |strings|] == strings
  {
    data + Zeros(base - |data|) + argv + lengths + strings + Zeros(PAGE - (base + 128) - |strings|)
  }

  /** The finished page: image data, padding, argv, lengths, strings, zeros. */
  function FinalPage(data: Bytes, a: Bytes): (r: Bytes)
    requires |data| <= PAGE && ArgumentAccepted(|data|, a)
    ensures |r| == PAGE
  {
    TokensFit(a, 0);
    var base, strings := ArgumentBase(|data|), StringsOffset(|data|);
    var ts := Tokens(a);
    Assembled(data, base, ArgvWords(ts, strings, ARG_MAX), LengthWords(ts, ARG_MAX), Strings(ts))
  }

  // ---- what the program finds ----

  /** The 64-bit little-endian number at a position. */
  function LongAt(b: Bytes, i: nat): nat
    requires i + 8 <= |b|
  {
    WordAt(b, i) + U32 * WordAt(b, i + 4)
  }

  lemma LongBefore(b: Bytes, c: Bytes, i: nat)
    requires i + 8 <= |b|
    ensures LongAt(b + c, i) == LongAt(b, i)
  {
  }

  lemma LongRoundTrip(before: Bytes, n: nat)
    requires n < U32
    ensures LongAt(before + Word64(n), |before|) == n
  {
    WordRoundTrip(n);
    var b := before + Word64(n);
    assert forall j :: 0 <= j < 8 ==> b[|before| + j] == Word64(n)[j];
  }

  lemma {:induction false} WordsAt(ts: seq<Bytes>, strings: nat, n: nat, k: nat)
    requires strings + StringBytes(ts) <= PAGE && k < n
    ensures LongAt(ArgvWords(ts, strings, n), 8 * k) == ArgvEntry(ts, strings, k)
    ensures LongAt(LengthWords(ts, n), 8 * k) == LengthEntry(ts, k)
    decreases n
  {
    PrefixBytes(ts, n - 1);
    if k < n - 1 {
      WordsAt(ts, strings, n - 1, k);
      LongBefore(ArgvWords(ts, strings, n - 1), Word64(ArgvEntry(ts, strings, n - 1)), 8 * k);
      LongBefore(LengthWords(ts, n - 1), Word64(LengthEntry(ts, n - 1)), 8 * k);
    } else {
      LongRoundTrip(ArgvWords(ts, strings, n - 1), ArgvEntry(ts, strings, k));
      LongRoundTrip(LengthWords(ts, n - 1), LengthEntry(ts, k));
    }
  }

  lemma {:induction false} StringsAt(ts: seq<Bytes>, k: nat)
    requires k < |ts|
    ensures StringBytes(ts[..k]) + |ts[k]| + 1 <= StringBytes(ts)
    ensures Strings(ts)[StringBytes(ts[..k])..StringBytes(ts[..k]) + |ts[k]| + 1] == ts[k] + [0]
    decreases k
  {
    PrefixBytes(ts, k);
    if k == 0 {
      assert ts[..0] == [];
    } else {
      assert ts[..k][1..] == ts[1..][..k - 1];
      StringsAt(ts[1..], k - 1);
      var lo, n := StringBytes(ts[1..][..k - 1]), |ts[k]| + 1;
      var head := ts[0] + [0];
      assert Strings(ts) == head + Strings(ts[1..]);
      assert Strings(ts)[|head| + lo..|head| + lo + n] == Strings(ts[1..])[lo..lo + n];
    }
  }

  /** Word k of the argv table at `base` points at `token`, NUL-terminated, above the tables, and
      word k of the lengths table behind it is the token's length. */
  predicate TokenVisible(page: Bytes, base: nat, k: nat, token: Bytes)
    requires |page| == PAGE && base + 128 <= PAGE && k < ARG_MAX
  {
    var argv := LongAt(page, base + 8 * k);
    && LongAt(page, base + 64 + 8 * k) == |token|
    && USER_DATA_START + base + 128 <= argv
    && argv - USER_DATA_START + |token| < PAGE
    && page[argv - USER_DATA_START..argv - USER_DATA_START + |token| + 1] == token + [0]
  }

  /** The program finds its k-th argument through argv[k] and lengths[k]. */
  lemma {:induction false} ArgvPointsAtTokens(data: Bytes, a: Bytes, k: nat)
    requires |data| <= PAGE && ArgumentAccepted(|data|, a) && k < |Tokens(a)|
    ensures TokenVisible(FinalPage(data, a), ArgumentBase(|data|), k, Tokens(a)[k])
  {
    PageParts(data, a);
    TablePointsAtToken(FinalPage(data, a), Tokens(a), ArgumentBase(|data|), StringsOffset(|data|), k);
  }

  lemma {:induction false} TablePointsAtToken(page: Bytes, ts: seq<Bytes>, base: nat, strings: nat, k: nat)
    requires |page| == PAGE && k < |ts| && k < ARG_MAX && strings == base + 128 && strings + StringBytes(ts) <= PAGE
    requires page[base..base + 64] == ArgvWords(ts, strings, ARG_MAX)
    requires page[base + 64..base + 128] == LengthWords(ts, ARG_MAX)
    requires page[strings..strings + StringBytes(ts)] == Strings(ts)
    ensures TokenVisible(page, base, k, ts[k])
  {
    WordsAt(ts, strings, ARG_MAX, k);
    TokenOnPage(page, ts, strings, k);
    EntriesPoint(page, base, k, ts[k], strings + StringBytes(ts[..k]), ArgvWords(ts, strings, ARG_MAX),
                 LengthWords(ts, ARG_MAX));
  }

  lemma {:induction false} EntriesPoint(page: Bytes, base: nat, k: nat, token: Bytes, at: nat, argv: Bytes,
      lengths: Bytes)
    requires |page| == PAGE && k < ARG_MAX && |argv| == 64 && |lengths| == 64
    requires base + 128 <= at && at + |token| + 1 <= PAGE && page[at..at + |token| + 1] == token + [0]
    requires page[base..base + 64] == argv && page[base + 64..base + 128] == lengths
    requires LongAt(argv, 8 * k) == USER_DATA_START + at && LongAt(lengths, 8 * k) == |token|
    ensures TokenVisible(page, base, k, token)
  {
    TableWord(page, base, argv, k, USER_DATA_START + at);
    TableWord(page, base + 64, lengths, k, |token|);
  }

  lemma {:induction false} TokenOnPage(page: Bytes, ts: seq<Bytes>, strings: nat, k: nat)
    requires k < |ts| && strings + StringBytes(ts) <= |page| && page[strings..strings + StringBytes(ts)] == Strings(ts)
    ensures strings + StringBytes(ts[..k]) + |ts[k]| + 1 <= strings + StringBytes(ts)
    ensures var at := strings + StringBytes(ts[..k]); page[at..at + |ts[k]| + 1] == ts[k] + [0]
  {
    StringsAt(ts, k);
    SliceOfSlice(page, strings, Strings(ts), StringBytes(ts[..k]), |ts[k]| + 1);
  }

  lemma TableWord(page: Bytes, start: nat, table: Bytes, k: nat, value: nat)
    requires |table| == 64 && start + 64 <= |page| && page[start..start + 64] == table && k < ARG_MAX
    requires LongAt(table, 8 * k) == value
    ensures LongAt(page, start + 8 * k) == value
  {
    assert forall j :: 0 <= j < 64 ==> page[start + j] == table[j];
  }

  lemma SliceOfSlice(page: Bytes, start: nat, part: Bytes, lo: nat, n: nat)
    requires start + |part| <= |page| && page[start..start + |part|] == part && lo + n <= |part|
    ensures page[start + lo..start + lo + n] == part[lo..lo + n]
  {
    assert forall j :: 0 <= j < |part| ==> page[start + j] == part[j];
  }

  lemma PageParts(data: Bytes, a: Bytes)
    requires |data| <= PAGE && ArgumentAccepted(|data|, a)
    ensures var page, base, strings, ts := FinalPage(data, a), ArgumentBase(|data|), StringsOffset(|data|), Tokens(a);
      && strings + StringBytes(ts) <= PAGE
      && page[..|data|] == data
      && page[base..base + 64] == ArgvWords(ts, strings, ARG_MAX)
      && page[base + 64..base + 128] == LengthWords(ts, ARG_MAX)
      && page[strings..strings + StringBytes(ts)] == Strings(ts)
  {
    TokensFit(a, 0);
  }

  // ---- the writes ----

  /** address_space_write_user_data on the data page: the new page, and whether the write was accepted. */
  function WriteData(page: Bytes, offset: nat, bytes: Bytes): (r: (Bytes, bool))
    requires |page| == PAGE
    ensures |r.0| == PAGE
  {
    if offset > PAGE || |bytes| > PAGE - offset then (page, false) else (Overwrite(page, offset, bytes), true)
  }

  /** The copying loop: each token, then its NUL. */
  function CopyTokens(page: Bytes, ts: seq<Bytes>, cursor: nat): (r: (Bytes, bool))
    requires |page| == PAGE
    ensures |r.0| == PAGE
    decreases |ts|
  {
    if ts == [] then (page, true)
    else
      var (page1, ok1) := WriteData(page, cursor, ts[0]);
      if !ok1 then (page1, false)
      else CopyTokens(WriteData(page1, cursor + |ts[0]|, [0]).0, ts[1..], cursor + |ts[0]| + 1)
  }

  /** The data page as address_space_load_user_image leaves it. */
  function LoadedPage(data: Bytes): (r: Bytes)
    requires |data| <= PAGE
    ensures |r| == PAGE
  {
    data + Zeros(PAGE - |data|)
  }

  /** When there is room, no write of the copying loop fails and together they write the strings. */
  lemma {:induction false} CopyTokensWrites(page: Bytes, ts: seq<Bytes>, cursor: nat)
    requires |page| == PAGE && cursor + StringBytes(ts) <= PAGE
    ensures CopyTokens(page, ts, cursor) == (Overwrite(page, cursor, Strings(ts)), true)
    decreases |ts|
  {
    if ts == [] {
      assert Overwrite(page, cursor, []) == page;
    } else {
      var next := cursor + |ts[0]| + 1;
      OverwriteAppend(page, cursor, ts[0], [0]);
      var page2 := Overwrite(page, cursor, ts[0] + [0]);
      CopyTokensWrites(page2, ts[1..], next);
      OverwriteAppend(page, cursor, ts[0] + [0], Strings(ts[1..]));
    }
  }

  /** For every accepted argument each of the writes to the data page is accepted, so the failure
      branches behind them are dead. */
  lemma {:induction false} WritesNeverFail(data: Bytes, a: Bytes, page: Bytes)
    requires |data| <= PAGE && ArgumentAccepted(|data|, a) && |page| == PAGE
    ensures CopyTokens(page, Tokens(a), StringsOffset(|data|)).1
    ensures StringsOffset(|data|) + StringBytes(Tokens(a)) <= PAGE
    ensures WriteData(page, ArgumentBase(|data|), ArgvWords(Tokens(a), StringsOffset(|data|), ARG_MAX)).1
    ensures WriteData(page, ArgumentBase(|data|) + 64, LengthWords(Tokens(a), ARG_MAX)).1
  {
    TokensFit(a, 0);
    CopyTokensWrites(page, Tokens(a), StringsOffset(|data|));
  }

  /** Strings, argv and lengths written over the loaded page give the final page. */
  lemma {:induction false} WritesGiveFinalPage(data: Bytes, a: Bytes)
    requires |data| <= PAGE && ArgumentAccepted(|data|, a)
    ensures var base, strings, ts := ArgumentBase(|data|), StringsOffset(|data|), Tokens(a);
      && strings + StringBytes(ts) <= PAGE
      && Overwrite(Overwrite(Overwrite(LoadedPage(data), strings, Strings(ts)), base, ArgvWords(ts, strings, ARG_MAX)),
                   base + 64, LengthWords(ts, ARG_MAX)) == FinalPage(data, a)
  {
    TokensFit(a, 0);
    var base, strings, ts := ArgumentBase(|data|), StringsOffset(|data|), Tokens(a);
    FourParts(data, base, ArgvWords(ts, strings, ARG_MAX), LengthWords(ts, ARG_MAX), Strings(ts));
  }

  lemma FourParts(data: Bytes, base: nat, argv: Bytes, lengths: Bytes, strings: Bytes)
    requires |data| <= base && base + 128 + |strings| <= PAGE && |argv| == 64 && |lengths| == 64
    ensures Overwrite(Overwrite(Overwrite(LoadedPage(data), base + 128, strings), base, argv), base + 64, lengths) ==
      Assembled(data, base, argv, lengths, strings)
  {
  }

  // ---- the loops ----

  /** The counting pass; more than ARG_MAX tokens is reported as ARG_MAX + 1. */
  method CountTokens(a: Bytes) returns (argc: nat)
    ensures argc == if |Tokens(a)| > ARG_MAX then ARG_MAX + 1 else |Tokens(a)|
  {
    argc := 0;
    var i := 0;
    while i < |a|
      invariant i <= |a| && argc <= ARG_MAX
      invariant argc + |TokensFrom(a, i)| == |Tokens(a)|
    {
      ghost var start := i;
      while i < |a| && a[i] == SPACE
        invariant start <= i <= |a| && SkipSpaces(a, i) == SkipSpaces(a, start)
      {
        i := i + 1;
      }
      if i < |a| {
        argc := argc + 1;
        if argc > ARG_MAX {
          return;
        }
        ghost var s := i;
        while i < |a| && a[i] != SPACE
          invariant s <= i <= |a| && SkipToken(a, i) == SkipToken(a, s)
        {
          i := i + 1;
        }
      }
    }
  }

  /** The copying pass over the loaded page, in place. */
  method CopyArguments(page: array<Byte>, a: Bytes, argc: nat, strings: nat) returns (argv: Bytes, lengths: Bytes)
    requires page.Length == PAGE && argc == |Tokens(a)| <= ARG_MAX && strings + StringBytes(Tokens(a)) <= PAGE
    modifies page
    ensures page[..] == Overwrite(old(page[..]), strings, Strings(Tokens(a)))
    ensures argv == ArgvWords(Tokens(a), strings, argc) && lengths == LengthWords(Tokens(a), argc)
  {
    ghost var ts, loaded := Tokens(a), page[..];
    argv, lengths := [], [];
    var cursor, source := strings, 0;
    NoTokenYet(a, loaded, strings);
    for index := 0 to argc
      invariant Copied(a, loaded, strings, index, source, cursor, argv, lengths, page[..])
    {
      ghost var before := page[..];
      NextFits(a, loaded, strings, index, source, cursor, argv, lengths, before);
      var start, end := CopyToken(page, a, source, cursor);
      CopiedStep(a, loaded, strings, index, source, cursor, argv, lengths, before, start, end, page[..]);
      argv := argv + Word64(USER_DATA_START + cursor);
      lengths := lengths + Word64(end - start);
      cursor := cursor + (end - start) + 1;
      source := end;
    }
    assert ts[..argc] == ts;
  }

  /** State of the copying pass after `index` tokens, from the loaded page on. */
  ghost predicate Copied(a: Bytes, loaded: Bytes, strings: nat, index: nat, source: nat, cursor: nat, argv: Bytes,
      lengths: Bytes, page: Bytes) {
    var ts := Tokens(a);
    && |loaded| == PAGE && strings + StringBytes(ts) <= PAGE && index <= |ts|
    && source <= |a| && ts[index..] == TokensFrom(a, source)
    && cursor == strings + StringBytes(ts[..index])
    && argv == ArgvWords(ts, strings, index) && lengths == LengthWords(ts, index)
    && page == Overwrite(loaded, strings, Strings(ts[..index]))
  }

  lemma {:induction false} NextFits(a: Bytes, loaded: Bytes, strings: nat, index: nat, source: nat, cursor: nat,
      argv: Bytes, lengths: Bytes, page: Bytes)
    requires Copied(a, loaded, strings, index, source, cursor, argv, lengths, page) && index < |Tokens(a)|
    ensures source <= |a| && TokensFrom(a, source) != [] && cursor + |TokensFrom(a, source)[0]| + 1 <= PAGE
  {
    PrefixBytes(Tokens(a), index);
  }

  lemma {:induction false} CopiedStep(a: Bytes, loaded: Bytes, strings: nat, index: nat, source: nat, cursor: nat,
      argv: Bytes, lengths: Bytes, page: Bytes, start: nat, end: nat, page': Bytes)
    requires Copied(a, loaded, strings, index, source, cursor, argv, lengths, page) && index < |Tokens(a)|
    requires start <= end <= |a| && TokensFrom(a, source) == [a[start..end]] + TokensFrom(a, end)
    requires cursor + (end - start) + 1 <= PAGE && |page| == PAGE
    requires page' == Overwrite(page, cursor, a[start..end] + [0])
    ensures Copied(a, loaded, strings, index + 1, end, cursor + (end - start) + 1,
                   argv + Word64(USER_DATA_START + cursor), lengths + Word64(end - start), page')
  {
    var ts := Tokens(a);
    PrefixBytes(ts, index);
    FirstOfRest(ts, index, a[start..end], TokensFrom(a, end));
    OneMoreString(loaded, page, page', ts, index, strings);
  }

  lemma NoTokenYet(a: Bytes, loaded: Bytes, strings: nat)
    requires |loaded| == PAGE && strings + StringBytes(Tokens(a)) <= PAGE
    ensures Copied(a, loaded, strings, 0, 0, strings, [], [], loaded)
  {
    assert Tokens(a)[0..] == Tokens(a) && Tokens(a)[..0] == [];
  }

  /** Finds the next token and stores it at the cursor. */
  method CopyToken(page: array<Byte>, a: Bytes, source: nat, cursor: nat) returns (start: nat, end: nat)
    requires page.Length == PAGE && source <= |a| && TokensFrom(a, source) != []
    requires cursor + |TokensFrom(a, source)[0]| + 1 <= PAGE
    modifies page
    ensures start <= end <= |a| && TokensFrom(a, source) == [a[start..end]] + TokensFrom(a, end)
    ensures cursor + (end - start) + 1 <= PAGE && page[..] == Overwrite(old(page[..]), cursor, a[start..end] + [0])
  {
    start, end := FindToken(a, source);
    StoreString(page, cursor, a[start..end]);
  }

  lemma FirstOfRest(ts: seq<Bytes>, k: nat, token: Bytes, rest: seq<Bytes>)
    requires k <= |ts| && ts[k..] == [token] + rest
    ensures k < |ts| && ts[k] == token && ts[k + 1..] == rest
  {
    assert ts[k..][0] == token && ts[k..][1..] == rest;
  }

  /** One token and its NUL. */
  method StoreString(page: array<Byte>, cursor: nat, token: Bytes)
    requires page.Length == PAGE && cursor + |token| + 1 <= PAGE
    modifies page
    ensures page[..] == Overwrite(old(page[..]), cursor, token + [0])
  {
    var stored := Store(page, cursor, token);
    stored := Store(page, cursor + |token|, [0]);
    OverwriteAppend(old(page[..]), cursor, token, [0]);
  }

  lemma {:induction false} OneMoreString(start: Bytes, before: Bytes, after: Bytes, ts: seq<Bytes>, k: nat,
      strings: nat)
    requires k < |ts| && strings + StringBytes(ts) <= |start|
    requires strings + StringBytes(ts[..k]) <= |start| && before == Overwrite(start, strings, Strings(ts[..k]))
    requires strings + StringBytes(ts[..k]) + |ts[k]| + 1 <= |start|
    requires after == Overwrite(before, strings + StringBytes(ts[..k]), ts[k] + [0])
    ensures after == Overwrite(start, strings, Strings(ts[..k + 1]))
  {
    StringsSnoc(ts, k);
    OverwriteAppend(start, strings, Strings(ts[..k]), ts[k] + [0]);
  }

  lemma {:induction false} StringsSnoc(ts: seq<Bytes>, k: nat)
    requires k < |ts|
    ensures Strings(ts[..k + 1]) == Strings(ts[..k]) + (ts[k] + [0])
    decreases k
  {
    if k == 0 {
      assert ts[..1][1..] == [] && ts[..0] == [];
    } else {
      StringsSnoc(ts[1..], k - 1);
      assert ts[..k + 1][1..] == ts[1..][..k] && ts[..k][1..] == ts[1..][..k - 1];
    }
  }

  /** The two scans of the copying pass, which stop at the NUL behind the argument. */
  method FindToken(a: Bytes, source: nat) returns (start: nat, end: nat)
    requires source <= |a| && TokensFrom(a, source) != []
    ensures start <= end <= |a| && TokensFrom(a, source) == [a[start..end]] + TokensFrom(a, end)
  {
    start := source;
    while start < |a| && a[start] == SPACE
      invariant source <= start <= |a| && SkipSpaces(a, start) == SkipSpaces(a, source)
    {
      start := start + 1;
    }
    end := start;
    while end < |a| && a[end] != SPACE
      invariant start <= end <= |a| && SkipToken(a, end) == SkipToken(a, start)
    {
      end := end + 1;
    }
  }

  /** address_space_write_user_data: a write that does not fit is refused without a change. */
  method Store(page: array<Byte>, offset: nat, bytes: Bytes) returns (stored: bool)
    requires page.Length == PAGE
    modifies page
    ensures (page[..], stored) == WriteData(old(page[..]), offset, bytes)
  {
    if offset > PAGE || |bytes| > PAGE - offset {
      return false;
    }
    for i := 0 to |bytes|
      invariant page[..] == Overwrite(old(page[..]), offset, bytes[..i])
    {
      ghost var before := page[..];
      page[offset + i] := bytes[i];
      assert page[..] == before[offset + i := bytes[i]];
      OverwriteAppend(old(page[..]), offset, bytes[..i], [bytes[i]]);
      assert bytes[..i] + [bytes[i]] == bytes[..i + 1];
      assert Overwrite(before, offset + i, [bytes[i]]) == before[offset + i := bytes[i]];
    }
    assert bytes[..|bytes|] == bytes;
    stored := true;
  }

  lemma MoreZeros(k: nat)
    ensures Word64(0) == Zeros(8) && Zeros(k) + Zeros(8) == Zeros(k + 8)
  {
  }

  lemma {:induction false} PadTables(ts: seq<Bytes>, strings: nat, n: nat)
    requires strings + StringBytes(ts) <= PAGE && |ts| <= n
    ensures ArgvWords(ts, strings, n) == ArgvWords(ts, strings, |ts|) + Zeros(8 * (n - |ts|))
    ensures LengthWords(ts, n) == LengthWords(ts, |ts|) + Zeros(8 * (n - |ts|))
    decreases n
  {
    if n > |ts| {
      PadTables(ts, strings, n - 1);
      PrefixBytes(ts, n - 1);
      MoreZeros(8 * (n - 1 - |ts|));
    }
  }

  /** Clearing a page and copying bytes to its start. */
  method LoadPage(page: array<Byte>, data: Bytes)
    requires page.Length == PAGE && |data| <= PAGE
    modifies page
    ensures page[..] == LoadedPage(data)
  {
    for i := 0 to PAGE
      invariant forall j :: 0 <= j < i ==> page[j] == 0
    {
      page[i] := 0;
    }
    for i := 0 to |data|
      invariant forall j :: 0 <= j < PAGE ==> page[j] == if j < i then data[j] else 0
    {
      page[i] := data[i];
    }
    assert page[..] == LoadedPage(data);
  }

  /** The loop of address_space_checksum_bytes over the loaded code page. */
  method ChecksumOfPage(page: array<Byte>, size: nat) returns (checksum: nat)
    requires size <= page.Length
    ensures checksum == ImageChecksum(page[..], size)
  {
    checksum := 0;
    for i := 0 to size
      invariant checksum == ImageChecksum(page[..], i)
    {
      checksum := ImageStep(checksum, page[i]);
    }
  }

  /** The padding of a loaded page does not enter the checksum. */
  lemma {:induction false} ChecksumOfPrefix(data: Bytes, page: Bytes, n: nat)
    requires n <= |data| <= |page| && page[..|data|] == data
    ensures ImageChecksum(page, n) == ImageChecksum(data, n)
  {
    if n > 0 {
      ChecksumOfPrefix(data, page, n - 1);
      assert page[..|data|][n - 1] == data[n - 1];
    }
  }

  /** address_space_load_user_image: the image is refused without a change, or both pages hold it and
      the record has its entry, size and checksum. The checks on the image are those of a valid one. */
  method LoadImage(code: array<Byte>, data: array<Byte>, r: Record, m: Image) returns (q: Record, loaded: bool)
    requires code.Length == PAGE && data.Length == PAGE && code != data
    modifies code, data
    ensures (q, loaded) == LoadRecord(r, m)
    ensures loaded ==> q.imageReady && q.imageEntry == UserSpace.CODE_START + m.entry && q.imageSize == |m.code|
    ensures loaded ==> q.imageChecksum == ImageChecksum(m.code, |m.code|)
    ensures loaded <==> r.slot < UserSpace.SLOTS && r.mappingsReady && ValidImage(m)
    ensures loaded ==> code[..] == LoadedPage(m.code) && data[..] == LoadedPage(m.data)
    ensures !loaded ==> code[..] == old(code[..]) && data[..] == old(data[..])
  {
    if r.slot >= UserSpace.SLOTS || !r.mappingsReady || |m.code| == 0 || |m.code| > PAGE || |m.data| > PAGE ||
       m.entry >= |m.code| || m.entry % 4 != 0
    {
      return r, false;
    }
    LoadPage(code, m.code);
    LoadPage(data, m.data);
    var checksum := ChecksumOfPage(code, |m.code|);
    ChecksumOfPrefix(m.code, code[..], |m.code|);
    q := r.(imageReady := true, imageEntry := UserSpace.CODE_START + m.entry, imageSize := |m.code|,
            imageChecksum := checksum);
    loaded := true;
  }

  /** The checks on the argument, with the counting pass. */
  method CheckArgument(dataSize: nat, a: Bytes) returns (accepted: bool, argc: nat)
    ensures accepted == ArgumentAccepted(dataSize, a) && (accepted ==> argc == |Tokens(a)|)
  {
    argc := 0;
    if |a| > ARGUMENT_MAX {
      return false, argc;
    }
    argc := CountTokens(a);
    accepted := argc <= ARG_MAX && StringsOffset(dataSize) + |a| + 1 <= PAGE;
  }

  /** The writes of the two tables. */
  method StoreTables(page: array<Byte>, base: nat, argv: Bytes, lengths: Bytes) returns (written: bool)
    requires page.Length == PAGE && |argv| == 64 && |lengths| == 64 && base + 128 <= PAGE
    modifies page
    ensures written && page[..] == Overwrite(Overwrite(old(page[..]), base, argv), base + 64, lengths)
  {
    written := Store(page, base, argv);
    if written {
      written := Store(page, base + 64, lengths);
    }
  }

  /** The copying pass and the tables of eight entries, the unused ones zero. */
  method CopyAndPad(page: array<Byte>, a: Bytes, argc: nat, strings: nat) returns (argv: Bytes, lengths: Bytes)
    requires page.Length == PAGE && argc == |Tokens(a)| <= ARG_MAX && strings + StringBytes(Tokens(a)) <= PAGE
    modifies page
    ensures page[..] == Overwrite(old(page[..]), strings, Strings(Tokens(a)))
    ensures argv == ArgvWords(Tokens(a), strings, ARG_MAX) && lengths == LengthWords(Tokens(a), ARG_MAX)
  {
    argv, lengths := CopyArguments(page, a, argc, strings);
    argv, lengths := argv + Zeros(8 * (ARG_MAX - argc)), lengths + Zeros(8 * (ARG_MAX - argc));
    PadTables(Tokens(a), strings, ARG_MAX);
  }

  /** The copying pass and the two tables, over a loaded data page. */
  method WriteArguments(page: array<Byte>, ghost data: Bytes, dataSize: nat, a: Bytes,
      argc: nat) returns (written: bool)
    requires page.Length == PAGE && |data| == dataSize <= PAGE && page[..] == LoadedPage(data)
    requires ArgumentAccepted(dataSize, a) && argc == |Tokens(a)|
    modifies page
    ensures written && page[..] == FinalPage(data, a)
  {
    var base, strings := ArgumentBase(dataSize), StringsOffset(dataSize);
    WritesGiveFinalPage(data, a);
    var argv, lengths := CopyAndPad(page, a, argc, strings);
    written := StoreTables(page, base, argv, lengths);
  }

  /** From an accepted image and argument to the finished data page: every write fits, so the
      failure branches are dead, and the page is exactly the documented layout. */
  method PrepareDataPage(page: array<Byte>, data: Bytes, a: Bytes) returns (accepted: bool, argc: nat)
    requires page.Length == PAGE && |data| <= PAGE
    modifies page
    ensures accepted == ArgumentAccepted(|data|, a)
    ensures accepted ==> argc == |Tokens(a)| && page[..] == FinalPage(data, a)
    ensures !accepted ==> page[..] == old(page[..])
  {
    accepted, argc := CheckArgument(|data|, a);
    if accepted {
      LoadPage(page, data);
      var written := WriteArguments(page, data, |data|, a, argc);
    }
  }
}
