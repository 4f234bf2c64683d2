/** The tokenizer's lookup tables and their construction from GGUF metadata. */
module Tables {
  import opened Bytes

  datatype VocabEntry = VocabEntry(text: seq<byte>, score: real, tokenType: nat)

  /** Built once and never changed afterwards. */
  datatype Tokenizer = Tokenizer(
    vocab: seq<VocabEntry>,
    tokenToId: map<seq<byte>, nat>,
    mergeRank: map<(nat, nat), nat>,
    byteToToken: seq<nat>)
  {
    /** The mutual consistency of the tables, which construction establishes. */
    ghost predicate Valid() {
      && IdTable(vocab, tokenToId)
      && (forall pair :: pair in mergeRank ==> pair.0 < |vocab| && pair.1 < |vocab|)
      && |byteToToken| == 256
    }
  }

  datatype BuildResult =
    | Built(tokenizer: Tokenizer)
    | VocabSizeMismatch(tokens: nat, scores: nat)
    | BuildPanic

  // ------------------------------------------------------ <0xNN> byte tokens

  function HexDigit(b: byte): Option<nat> {
    if 48 <= b <= 57 then Some(b - 48)
    else if 65 <= b <= 70 then Some(b - 55)
    else if 97 <= b <= 102 then Some(b - 87)
    else None
  }

  /** Value of the hexadecimal digits `s[lo..hi]`, most significant first. */
  function HexValue(s: seq<byte>, lo: nat, hi: nat): Option<nat>
    requires lo <= hi <= |s|
  {
    if lo == hi then Some(0)
    else match (HexValue(s, lo, hi - 1), HexDigit(s[hi - 1]))
      case (Some(high), Some(low)) => Some(16 * high + low)
      case _ => None
  }

  /** `u8::from_str_radix(s[lo..hi], 16).ok()`: one leading '+' is allowed, overflow is not. */
  function ParseHexByte(s: seq<byte>, lo: nat, hi: nat): Option<byte>
    requires lo <= hi <= |s|
  {
    var from := if hi - lo >= 2 && s[lo] == 43 then lo + 1 else lo;
    if from == hi then None
    else match HexValue(s, from, hi)
      case Some(v) => if v < 256 then Some(v) else None
      case None => None
  }

  /** Strips "<0x" and ">" and reads what is left. */
  function ParseByteToken(s: seq<byte>): Option<byte> {
    if |s| > 3 && s[0] == 60 && s[1] == 48 && s[2] == 120 && s[|s| - 1] == 62
    then ParseHexByte(s, 3, |s| - 1)
    else None
  }

  function UpperHex(d: nat): byte
    requires d < 16
  {
    if d < 10 then 48 + d else 55 + d
  }

  /** `format!("<0x{:02X}>", b)` */
  function HexSpelling(b: byte): seq<byte> {
    [60, 48, 120, UpperHex(b / 16), UpperHex(b % 16), 62]
  }

  /** The text stored for a token string. */
  function TextOf(token: seq<byte>): seq<byte> {
    match ParseByteToken(token)
    case Some(b) => [b]
    case None => token
  }

  lemma ParseHexSpelling(b: byte)
    ensures ParseByteToken(HexSpelling(b)) == Some(b)
  {
    var s := HexSpelling(b);
    assert HexValue(s, 3, 4) == Some(b / 16);
    assert HexValue(s, 3, 5) == Some(b);
  }

  /** No token keeps a `<0xNN>` spelling as its text, so looking one up always fails. */
  lemma SpellingNeverSurvives(token: seq<byte>, b: byte)
    ensures TextOf(token) != HexSpelling(b)
  {
    ParseHexSpelling(b);
  }

  /** Two hexadecimal digits of either case between "<0x" and ">" give their byte; other tokens keep their text. */
  lemma SpellingsRead(token: seq<byte>, b: byte)
    ensures |token| == 6 && token[..3] == [60, 48, 120] && token[5] == 62
            && token[3] as char in ["0123456789ABCDEF"[b / 16], "0123456789abcdef"[b / 16]]
            && token[4] as char in ["0123456789ABCDEF"[b % 16], "0123456789abcdef"[b % 16]]
            ==> TextOf(token) == [b]
    ensures !([60, 48, 120] <= token) || token[|token| - 1] != 62 || |token| == 4 ==> TextOf(token) == token
  {
    if |token| == 6 && token[..3] == [60, 48, 120] && token[5] == 62
       && token[3] as char in ["0123456789ABCDEF"[b / 16], "0123456789abcdef"[b / 16]]
       && token[4] as char in ["0123456789ABCDEF"[b % 16], "0123456789abcdef"[b % 16]] {
      assert token[0] == token[..3][0] && token[1] == token[..3][1] && token[2] == token[..3][2];
      assert HexDigit(token[3]) == Some(b / 16) && HexDigit(token[4]) == Some(b % 16);
      assert HexValue(token, 3, 3) == Some(0);
      assert HexValue(token, 3, 4) == Some(b / 16);
      assert HexValue(token, 3, 5) == Some(b);
    }
  }

  // ---------------------------------------------------------- what each table says

  function EntryOf(tokens: seq<seq<byte>>, scores: seq<real>, types: seq<nat>, i: nat): VocabEntry
    requires i < |tokens|
  {
    VocabEntry(
      TextOf(tokens[i]),
      if i < |scores| then scores[i] else 0.0,
      if i < |types| then types[i] else 1)
  }

  /** `tokenToId` maps exactly the vocabulary's texts, each to the largest id that has it. */
  ghost predicate IdTable(vocab: seq<VocabEntry>, tokenToId: map<seq<byte>, nat>) {
    && (forall key :: key in tokenToId ==> tokenToId[key] < |vocab| && vocab[tokenToId[key]].text == key)
    && (forall i: nat :: i < |vocab| ==> vocab[i].text in tokenToId && i <= tokenToId[vocab[i].text])
  }

  /** `split_once(' ')` */
  function SplitOnce(s: seq<byte>): Option<(seq<byte>, seq<byte>)> {
    if s == [] then None
    else if s[0] == 32 then Some(([], s[1..]))
    else match SplitOnce(s[1..])
      case Some(parts) => Some(([s[0]] + parts.0, parts.1))
      case None => None
  }

  /** A merge rule is cut at its first space, and only there. */
  lemma {:induction false} SplitExactly(rule: seq<byte>, left: seq<byte>, right: seq<byte>)
    ensures SplitOnce(rule) == Some((left, right)) <==> rule == left + [32] + right && 32 !in left
    ensures SplitOnce(rule) == None <==> 32 !in rule
  {
    if rule != [] {
      var front, back := rule[0], rule[1..];
      assert rule == [front] + back;
      if front == 32 {
        assert 32 !in left && rule == left + [32] + right ==> left == [] && rule[1..] == right;
        assert [] + [32] + rule[1..] == rule;
      } else if left == [] {
        SplitExactly(back, [], right);
        assert (left + [32] + right)[0] == 32;
      } else {
        SplitExactly(back, left[1..], right);
        assert left == [left[0]] + left[1..];
        assert left + [32] + right == [left[0]] + (left[1..] + [32] + right);
        assert 32 in left <==> left[0] == 32 || 32 in left[1..];
      }
    }
  }

  /** The id pair a merge rule names, if both halves are known tokens. */
  function PairOf(tokenToId: map<seq<byte>, nat>, rule: seq<byte>): Option<(nat, nat)> {
    match SplitOnce(rule)
    case Some(parts) =>
      if parts.0 in tokenToId && parts.1 in tokenToId
      then Some((tokenToId[parts.0], tokenToId[parts.1]))
      else None
    case None => None
  }

  /** `mergeRank` gives each resolvable pair the index of the last rule that names it. */
  ghost predicate RankTable(
    merges: seq<seq<byte>>, tokenToId: map<seq<byte>, nat>, mergeRank: map<(nat, nat), nat>)
  {
    && (forall pair :: pair in mergeRank ==>
          mergeRank[pair] < |merges| && PairOf(tokenToId, merges[mergeRank[pair]]) == Some(pair))
    && (forall r: nat :: r < |merges| && PairOf(tokenToId, merges[r]).Some? ==>
          var pair := PairOf(tokenToId, merges[r]).value; pair in mergeRank && r <= mergeRank[pair])
  }

  predicate IsByteEntry(e: VocabEntry) {
    e.tokenType == 6 || (|e.text| == 1 && e.tokenType != 1)
  }

  /** Entry `i` offers itself as the fallback token of byte `b`. */
  predicate Claims(vocab: seq<VocabEntry>, i: nat, b: byte)
    requires i < |vocab|
  {
    IsByteEntry(vocab[i]) && vocab[i].text != [] && vocab[i].text[0] == b
  }

  ghost predicate LastClaim(vocab: seq<VocabEntry>, b: byte, id: nat) {
    && id < |vocab| && Claims(vocab, id, b)
    && forall i: nat :: id < i < |vocab| ==> !Claims(vocab, i, b)
  }

  ghost predicate Unclaimed(vocab: seq<VocabEntry>, b: byte) {
    forall i: nat :: i < |vocab| ==> !Claims(vocab, i, b)
  }

  /** The fallback of `b` is the last entry that claims it, and token 0 when none does. */
  ghost predicate ByteTable(vocab: seq<VocabEntry>, byteToToken: seq<nat>) {
    && |byteToToken| == 256
    && forall b: byte :: if Unclaimed(vocab, b) then byteToToken[b] == 0 else LastClaim(vocab, b, byteToToken[b])
  }

  /** What the gap-filling pass stores for a byte that no entry claims. */
  function Backup(tokenToId: map<seq<byte>, nat>, b: byte): nat {
    if HexSpelling(b) in tokenToId then tokenToId[HexSpelling(b)] else 0
  }

  /** A type-6 entry with no text: indexing its first byte ends the program. */
  predicate EmptyByteEntry(e: VocabEntry) { e.tokenType == 6 && e.text == [] }

  /** Ids and ranks fit their machine words, so that `as u32` loses nothing. */
  predicate FitsU32(tokens: seq<seq<byte>>, merges: seq<seq<byte>>) {
    |tokens| < U32_MODULUS && |merges| < U32_MODULUS
  }

  // ---------------------------------------------------------- construction

  function Entries(tokens: seq<seq<byte>>, scores: seq<real>, types: seq<nat>): (entries: seq<VocabEntry>)
    ensures |entries| == |tokens|
    ensures forall i: nat :: i < |tokens| ==> entries[i] == EntryOf(tokens, scores, types, i)
  {
    seq(|tokens|, i requires 0 <= i < |tokens| => EntryOf(tokens, scores, types, i))
  }

  method BuildVocab(tokens: seq<seq<byte>>, scores: seq<real>, types: seq<nat>)
    returns (vocab: seq<VocabEntry>, tokenToId: map<seq<byte>, nat>)
    ensures vocab == Entries(tokens, scores, types)
    ensures forall i: nat :: i < |tokens| ==>
              && vocab[i].score == (if i < |scores| then scores[i] else 0.0)
              && vocab[i].tokenType == (if i < |types| then types[i] else 1)
    ensures |tokens| < U32_MODULUS ==> IdTable(vocab, tokenToId)
    ensures forall key :: key in tokenToId ==> HasText(vocab, key)
  {
    ghost var entries := Entries(tokens, scores, types);
    vocab, tokenToId := [], map[];
    for i := 0 to |tokens|
      invariant vocab == entries[..i]
      invariant |tokens| < U32_MODULUS ==> IdTable(vocab, tokenToId)
      invariant forall key :: key in tokenToId ==> HasText(vocab, key)
    {
      var entry := EntryOf(tokens, scores, types, i);
      assert entry == entries[i];
      var id := i % U32_MODULUS;
      if |tokens| < U32_MODULUS {
        assert id == |vocab|;
        IdTableStep(vocab, tokenToId, entry);
      }
      HasTextStep(vocab, entry);
      tokenToId := tokenToId[entry.text := id];
      vocab := vocab + [entry];
    }
  }

  lemma IdTableStep(vocab: seq<VocabEntry>, tokenToId: map<seq<byte>, nat>, entry: VocabEntry)
    requires IdTable(vocab, tokenToId)
    ensures IdTable(vocab + [entry], tokenToId[entry.text := |vocab|])
  {
    var longer := vocab + [entry];
    assert forall i: nat :: i < |vocab| ==> longer[i] == vocab[i];
    assert longer[|vocab|] == entry;
  }

  ghost predicate HasText(vocab: seq<VocabEntry>, key: seq<byte>) {
    exists i: nat :: i < |vocab| && vocab[i].text == key
  }

  lemma HasTextStep(vocab: seq<VocabEntry>, entry: VocabEntry)
    ensures forall key :: HasText(vocab, key) ==> HasText(vocab + [entry], key)
    ensures HasText(vocab + [entry], entry.text)
  {
    forall key | HasText(vocab, key) ensures HasText(vocab + [entry], key) {
      var i: nat :| i < |vocab| && vocab[i].text == key;
      assert (vocab + [entry])[i].text == key;
    }
    assert (vocab + [entry])[|vocab|] == entry;
  }

  method BuildRanks(merges: seq<seq<byte>>, tokenToId: map<seq<byte>, nat>)
    returns (mergeRank: map<(nat, nat), nat>)
    ensures |merges| < U32_MODULUS ==> RankTable(merges, tokenToId, mergeRank)
  {
    mergeRank := map[];
    for r := 0 to |merges|
      invariant |merges| < U32_MODULUS ==> RankTable(merges[..r], tokenToId, mergeRank)
    {
      ghost var before := mergeRank;
      var pair := PairOf(tokenToId, merges[r]);
      if pair.Some? {
        mergeRank := mergeRank[pair.value := r % U32_MODULUS];
      }
      if |merges| < U32_MODULUS {
        RankTableStep(merges, r, tokenToId, before, pair, mergeRank);
      }
    }
    assert merges[..|merges|] == merges;
  }

  lemma RankTableStep(
    merges: seq<seq<byte>>, r: nat, tokenToId: map<seq<byte>, nat>, before: map<(nat, nat), nat>,
    pair: Option<(nat, nat)>, after: map<(nat, nat), nat>)
    requires r < |merges| && RankTable(merges[..r], tokenToId, before)
    requires pair == PairOf(tokenToId, merges[r])
    requires after == if pair.Some? then before[pair.value := r] else before
    ensures RankTable(merges[..r + 1], tokenToId, after)
  {
    var longer := merges[..r + 1];
    assert longer[r] == merges[r];
    assert forall i: nat :: i < r ==> longer[i] == merges[..r][i];
  }

  /** Ranked pairs are made of vocabulary ids. */
  lemma RankedIdsInRange(vocab: seq<VocabEntry>, merges: seq<seq<byte>>, tokenToId: map<seq<byte>, nat>,
                         mergeRank: map<(nat, nat), nat>)
    requires IdTable(vocab, tokenToId) && RankTable(merges, tokenToId, mergeRank)
    ensures forall pair :: pair in mergeRank ==> pair.0 < |vocab| && pair.1 < |vocab|
  {
  }

  method BuildByteTable(vocab: seq<VocabEntry>, tokenToId: map<seq<byte>, nat>)
    returns (result: Run<seq<nat>>)
    ensures result.Panic? <==> exists i: nat :: i < |vocab| && EmptyByteEntry(vocab[i])
    ensures result.Done? ==> |result.value| == 256
    ensures result.Done? && |vocab| < U32_MODULUS ==> forall b: byte ::
              if Unclaimed(vocab, b) then result.value[b] == Backup(tokenToId, b)
              else LastClaim(vocab, b, result.value[b])
  {
    var table := new nat[256](_ => U32_MAX);
    for id := 0 to |vocab|
      invariant forall j: nat :: j < id ==> !EmptyByteEntry(vocab[j])
      invariant |vocab| < U32_MODULUS ==> forall b: byte ::
                  if Unclaimed(vocab[..id], b) then table[b] == U32_MAX
                  else LastClaim(vocab[..id], b, table[b])
    {
      assert vocab[..id + 1] == vocab[..id] + [vocab[id]];
      ghost var before := table[..];
      var entry := vocab[id];
      if entry.tokenType == 6 || (|entry.text| == 1 && entry.tokenType != 1) {
        if entry.text == [] {
          return Panic;
        }
        table[entry.text[0]] := id % U32_MODULUS;
      }
      forall b: byte | |vocab| < U32_MODULUS
        ensures if Unclaimed(vocab[..id + 1], b) then table[b] == U32_MAX
                else LastClaim(vocab[..id + 1], b, table[b])
      {
        ClaimStep(vocab, id, b, before[b]);
      }
    }
    assert vocab[..|vocab|] == vocab;
    for b := 0 to 256
      invariant |vocab| < U32_MODULUS ==> forall c: byte ::
                  if Unclaimed(vocab, c) then table[c] == (if c < b then Backup(tokenToId, c) else U32_MAX)
                  else LastClaim(vocab, c, table[c])
    {
      if table[b] == U32_MAX {
        var repr := HexSpelling(b);
        if repr in tokenToId {
          table[b] := tokenToId[repr];
        } else {
          table[b] := 0;
        }
      }
    }
    return Done(table[..]);
  }

  /** Scanning one more entry either hands the byte to it or leaves the byte's holder alone. */
  lemma ClaimStep(vocab: seq<VocabEntry>, id: nat, b: byte, holder: nat)
    requires id < |vocab|
    requires if Unclaimed(vocab[..id], b) then holder == U32_MAX else LastClaim(vocab[..id], b, holder)
    ensures if Claims(vocab, id, b) then LastClaim(vocab[..id + 1], b, id)
            else if Unclaimed(vocab[..id], b) then Unclaimed(vocab[..id + 1], b)
            else LastClaim(vocab[..id + 1], b, holder)
    ensures Unclaimed(vocab[..id + 1], b) <==> Unclaimed(vocab[..id], b) && !Claims(vocab, id, b)
  {
    var now := vocab[..id + 1];
    assert forall i: nat :: i < id ==> Claims(now, i, b) == Claims(vocab[..id], i, b);
    assert Claims(now, id, b) == Claims(vocab, id, b);
  }

  method FromGgufParts(
    tokens: seq<seq<byte>>, scores: seq<real>, types: seq<nat>, merges: seq<seq<byte>>)
    returns (r: BuildResult)
    ensures r.VocabSizeMismatch? <==> scores != [] && |scores| != |tokens|
    ensures r.VocabSizeMismatch? ==> r == VocabSizeMismatch(|tokens|, |scores|)
    ensures r.BuildPanic? <==>
            !r.VocabSizeMismatch?
            && exists i: nat :: i < |tokens| && EmptyByteEntry(EntryOf(tokens, scores, types, i))
    ensures r.Built? ==>
              r.tokenizer.vocab == Entries(tokens, scores, types)
    ensures r.Built? && FitsU32(tokens, merges) ==>
              && r.tokenizer.Valid()
              && RankTable(merges, r.tokenizer.tokenToId, r.tokenizer.mergeRank)
              && ByteTable(r.tokenizer.vocab, r.tokenizer.byteToToken)
  {
    var n := |tokens|;
    if scores != [] && |scores| != n {
      return VocabSizeMismatch(n, |scores|);
    }
    var vocab, tokenToId := BuildVocab(tokens, scores, types);
    var mergeRank := BuildRanks(merges, tokenToId);
    forall b: byte ensures Backup(tokenToId, b) == 0 {
      if HexSpelling(b) in tokenToId {
        var i: nat :| i < |vocab| && vocab[i].text == HexSpelling(b);
        SpellingNeverSurvives(tokens[i], b);
      }
    }
    var bytes := BuildByteTable(vocab, tokenToId);
    match bytes
    case Panic =>
      r := BuildPanic;
      var i: nat :| i < |vocab| && EmptyByteEntry(vocab[i]);
      assert EmptyByteEntry(EntryOf(tokens, scores, types, i));
    case Done(table) =>
      forall i: nat | i < |tokens| ensures !EmptyByteEntry(EntryOf(tokens, scores, types, i)) {
        assert vocab[i] == EntryOf(tokens, scores, types, i);
      }
      if FitsU32(tokens, merges) {
        RankedIdsInRange(vocab, merges, tokenToId, mergeRank);
      }
      r := Built(Tokenizer(vocab, tokenToId, mergeRank, table));
  }

  /**
   * A fallback other than token 0 is the last entry whose text starts with the byte and that is of type
   * 6 or is one byte of a type other than 1. A normal token never becomes a fallback.
   */
  lemma FallbackExactly(t: Tokenizer, b: byte, id: nat)
    requires ByteTable(t.vocab, t.byteToToken) && id != 0
    ensures t.byteToToken[b] == id <==>
            && id < |t.vocab| && t.vocab[id].text != [] && t.vocab[id].text[0] == b
            && t.vocab[id].tokenType != 1 && (t.vocab[id].tokenType == 6 || |t.vocab[id].text| == 1)
            && forall i: nat :: id < i < |t.vocab| && t.vocab[i].text != [] && t.vocab[i].text[0] == b ==>
                 t.vocab[i].tokenType == 1 || (t.vocab[i].tokenType != 6 && |t.vocab[i].text| != 1)
  {
    assert forall i: nat :: i < |t.vocab| && t.vocab[i].text != [] && t.vocab[i].text[0] == b ==>
      (Claims(t.vocab, i, b) <==>
         t.vocab[i].tokenType != 1 && (t.vocab[i].tokenType == 6 || |t.vocab[i].text| == 1));
    assert forall i: nat :: i < |t.vocab| && Claims(t.vocab, i, b) ==>
      t.vocab[i].text != [] && t.vocab[i].text[0] == b;
  }

  /** When byte entries hold one byte, a byte's fallback is the last such entry for exactly that byte. */
  lemma FallbackIsExact(t: Tokenizer, b: byte)
    requires ByteTable(t.vocab, t.byteToToken)
    requires forall i: nat :: i < |t.vocab| && t.vocab[i].tokenType == 6 ==> |t.vocab[i].text| == 1
    ensures t.byteToToken[b] != 0 ==>
              t.byteToToken[b] < |t.vocab| && t.vocab[t.byteToToken[b]].text == [b]
    ensures forall i: nat :: i < |t.vocab| && t.vocab[i].text == [b] && t.vocab[i].tokenType != 1 ==>
              i <= t.byteToToken[b]
  {
    forall i: nat | i < |t.vocab| && t.vocab[i].text == [b] && t.vocab[i].tokenType != 1
      ensures i <= t.byteToToken[b]
    {
      assert Claims(t.vocab, i, b);
    }
  }
}
