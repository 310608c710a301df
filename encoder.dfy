/** Inter-chunk encoding
    (`convert_into_interchunk_ssf_from_chunk_info_and_other_dicts_for_sentence`):
    chunks get addresses `1..N` and their tokens `i.1..i.k`, the relation of
    each chunk's head token is lifted to the chunk through the head index, and
    the chunks are written as SSF bracket lines. */
module Encoder {
  import opened Results
  import opened Text
  import opened Features
  import opened Decoder

  /** Address of the chunk at 0-based position `i`. */
  function ChunkAddress(i: nat): string {
    NatToString(i + 1)
  }

  /** Address of the `j`-th (0-based) token of the chunk at position `i`. */
  function TokenAddress(i: nat, j: nat): string {
    ChunkAddress(i) + "." + NatToString(j + 1)
  }

  /** A numeral holds nothing but digits. */
  lemma NumeralChars(s: string, c: char)
    requires AllDigits(s) && !IsDigit(c)
    ensures c !in s
  {
  }

  /** A token address reads back as the chunk number `i + 1` and the token
      number `j + 1`. */
  lemma TokenAddressReadBack(i: nat, j: nat)
    ensures SplitOnce(TokenAddress(i, j), '.') == Some((ChunkAddress(i), NatToString(j + 1)))
    ensures ParseNat(ChunkAddress(i)) == i + 1 && ParseNat(NatToString(j + 1)) == j + 1
  {
    NumeralChars(ChunkAddress(i), '.');
    NumeralChars(NatToString(j + 1), '.');
    SplitOnceOf(ChunkAddress(i), '.', NatToString(j + 1));
    ParseNatToString(i + 1);
    ParseNatToString(j + 1);
  }

  /** The `fs` element of a token line: only `af` and the surface form. */
  function TokenFeatures(af: string, surface: string): string {
    "<fs af='" + af + "' name='" + surface + "'>"
  }

  /** The line of the `j`-th token of chunk `i`; a token without `af` fails. */
  function TokenLine(i: nat, j: nat, tok: Token): (r: Result<string>)
    ensures r.Ok? <==> "af" in tok.feats
    ensures r.Err? ==> r.error == MissingFeature("af")
  {
    if "af" !in tok.feats then Err(MissingFeature("af"))
    else Ok(Join([TokenAddress(i, j), tok.surface, tok.pos, TokenFeatures(tok.feats["af"], tok.surface)], '\t'))
  }

  /** A head token that carries a `drel` feature. */
  predicate HasRelation(tok: Token) {
    tok.head && "drel" in tok.feats
  }

  /** The relation a head token passes to its chunk: its label and the tag of
      the chunk whose head the target names. */
  function Resolve(tok: Token, index: map<string, string>): (r: Result<string>)
    requires HasRelation(tok)
    ensures Count(tok.feats["drel"], ':') != 1 ==> r == Err(MalformedRelation(tok.feats["drel"]))
    ensures r.Ok? ==> r.value != ""
  {
    match SplitOnce(tok.feats["drel"], ':')
    case None => Err(MalformedRelation(tok.feats["drel"]))
    case Some((relation, target)) =>
      if target !in index then Err(DanglingRelation(target))
      else Ok(relation + ":" + index[target])
  }

  /** Relation round trip: `drel='label:target'` on a head token becomes
      `label:` followed by the tag of the chunk that `target` heads; a target
      that heads no chunk is a dangling relation. */
  lemma ResolveMeaning(tok: Token, index: map<string, string>, relation: string, target: string)
    requires HasRelation(tok) && tok.feats["drel"] == relation + ":" + target
    requires ':' !in relation && ':' !in target
    ensures target in index ==> Resolve(tok, index) == Ok(relation + ":" + index[target])
    ensures target !in index ==> Resolve(tok, index) == Err(DanglingRelation(target))
  {
    SplitOnceOf(relation, ':', target);
  }

  /** What the token loop of one chunk has produced: its token lines and the
      chunk relation, `""` while no head token has given one. */
  datatype Scan = Scan(lines: seq<string>, drel: string)

  /** The token loop of chunk `i` over `toks`; the first failure aborts it. */
  function ScanTokens(i: nat, toks: seq<Token>, index: map<string, string>): (r: Result<Scan>)
    ensures r.Ok? ==> |r.value.lines| == |toks|
  {
    if toks == [] then Ok(Scan([], ""))
    else
      var j := |toks| - 1;
      match ScanTokens(i, toks[..j], index)
      case Err(e) => Err(e)
      case Ok(sc) =>
        match TokenLine(i, j, toks[j])
        case Err(e) => Err(e)
        case Ok(line) =>
          if !HasRelation(toks[j]) then Ok(Scan(sc.lines + [line], sc.drel))
          else
            match Resolve(toks[j], index)
            case Err(e) => Err(e)
            case Ok(d) => Ok(Scan(sc.lines + [line], d))
  }

  /** A token is encodable when it has `af` and, if it is a head with `drel`,
      that relation resolves. */
  predicate Encodable(tok: Token, index: map<string, string>) {
    "af" in tok.feats && (HasRelation(tok) ==> Resolve(tok, index).Ok?)
  }

  /** The token loop succeeds exactly when every token is encodable; so a
      dangling or malformed relation on any head token fails the chunk. */
  lemma {:induction false} ScanTokensSucceeds(i: nat, toks: seq<Token>, index: map<string, string>)
    ensures ScanTokens(i, toks, index).Ok? <==> forall j :: 0 <= j < |toks| ==> Encodable(toks[j], index)
  {
    if toks != [] {
      var p := toks[..|toks| - 1];
      ScanTokensSucceeds(i, p, index);
      assert forall j :: 0 <= j < |p| ==> p[j] == toks[j];
    }
  }

  /** The `j`-th token line is the line of the `j`-th token. */
  lemma {:induction false} ScanTokensLines(i: nat, toks: seq<Token>, index: map<string, string>, j: nat)
    requires ScanTokens(i, toks, index).Ok? && j < |toks|
    ensures TokenLine(i, j, toks[j]).Ok?
    ensures ScanTokens(i, toks, index).value.lines[j] == TokenLine(i, j, toks[j]).value
  {
    var p := toks[..|toks| - 1];
    if j < |p| {
      ScanTokensLines(i, p, index, j);
      assert p[j] == toks[j];
    }
  }

  /** With no head token carrying `drel`, the chunk gets no relation. */
  lemma {:induction false} ScanTokensNoRelation(i: nat, toks: seq<Token>, index: map<string, string>)
    requires ScanTokens(i, toks, index).Ok?
    ensures ScanTokens(i, toks, index).value.drel == "" <==>
              forall j :: 0 <= j < |toks| ==> !HasRelation(toks[j])
  {
    if toks != [] {
      var p := toks[..|toks| - 1];
      ScanTokensNoRelation(i, p, index);
      assert forall j :: 0 <= j < |p| ==> p[j] == toks[j];
    }
  }

  /** Otherwise the last head token carrying `drel` decides the relation. */
  lemma {:induction false} ScanTokensLastRelation(i: nat, toks: seq<Token>, index: map<string, string>, j: nat)
    requires ScanTokens(i, toks, index).Ok?
    requires j < |toks| && HasRelation(toks[j])
    requires forall k :: j < k < |toks| ==> !HasRelation(toks[k])
    ensures Resolve(toks[j], index).Ok?
    ensures ScanTokens(i, toks, index).value.drel == Resolve(toks[j], index).value
  {
    var p := toks[..|toks| - 1];
    if j < |p| {
      assert p[j] == toks[j];
      ScanTokensLastRelation(i, p, index, j);
    }
  }

  lemma ScanTokensStep(i: nat, toks: seq<Token>, index: map<string, string>, j: nat)
    requires j < |toks|
    ensures ScanTokens(i, toks[..j + 1], index) ==
      match ScanTokens(i, toks[..j], index)
      case Err(e) => Err(e)
      case Ok(sc) =>
        match TokenLine(i, j, toks[j])
        case Err(e) => Err(e)
        case Ok(line) =>
          if !HasRelation(toks[j]) then Ok(Scan(sc.lines + [line], sc.drel))
          else
            match Resolve(toks[j], index)
            case Err(e) => Err(e)
            case Ok(d) => Ok(Scan(sc.lines + [line], d))
  {
    assert toks[..j + 1][..j] == toks[..j];
  }

  lemma {:induction false} ScanTokensFailed(i: nat, toks: seq<Token>, index: map<string, string>, j: nat)
    requires j <= |toks| && ScanTokens(i, toks[..j], index).Err?
    ensures ScanTokens(i, toks, index) == ScanTokens(i, toks[..j], index)
  {
    if j < |toks| {
      var p := toks[..|toks| - 1];
      assert p[..j] == toks[..j];
      ScanTokensFailed(i, p, index, j);
    } else {
      assert toks[..j] == toks;
    }
  }

  /** The `fs` element of a chunk line: `drel` only when a relation was found. */
  function ChunkFeatures(tag: string, drel: string): string {
    if drel != "" then "<fs drel='" + drel + "' name='" + tag + "'>"
    else "<fs name='" + tag + "'>"
  }

  /** The bracket line of chunk `i`: label is the tag without its numeral. */
  function ChunkLine(i: nat, bracket: string, tag: string, drel: string): string {
    Join([ChunkAddress(i), "((", bracket, ChunkFeatures(tag, drel)], '\t')
  }

  /** All lines of chunk `i`: the bracket line, the token lines, the closing line. */
  function ChunkBlock(i: nat, tag: string, toks: seq<Token>, index: map<string, string>): (r: Result<seq<string>>)
    ensures r.Ok? ==> |r.value| == |toks| + 2 && r.value[|toks| + 1] == "\t))"
  {
    match ScanTokens(i, toks, index)
    case Err(e) => Err(e)
    case Ok(sc) =>
      match UpperRun(tag)
      case None => Err(NoChunkLabel(tag))
      case Some(name) => Ok([ChunkLine(i, name, tag, sc.drel)] + sc.lines + ["\t))"])
  }

  /** A chunk is written exactly when every token of it is encodable and its
      tag has an upper-case letter. */
  lemma ChunkBlockSucceeds(i: nat, tag: string, toks: seq<Token>, index: map<string, string>)
    ensures ChunkBlock(i, tag, toks, index).Ok? <==>
              (forall j :: 0 <= j < |toks| ==> Encodable(toks[j], index)) && UpperRun(tag).Some?
  {
    ScanTokensSucceeds(i, toks, index);
  }

  /** The lines of one chunk: the bracket line carries the tag's letters and
      the relation, then come the token lines in order. */
  lemma ChunkBlockLayout(i: nat, tag: string, toks: seq<Token>, index: map<string, string>)
    requires ChunkBlock(i, tag, toks, index).Ok?
    ensures ScanTokens(i, toks, index).Ok? && UpperRun(tag).Some?
    ensures ChunkBlock(i, tag, toks, index).value[0] ==
              ChunkLine(i, UpperRun(tag).value, tag, ScanTokens(i, toks, index).value.drel)
    ensures forall j :: 0 <= j < |toks| ==>
              TokenLine(i, j, toks[j]).Ok? && ChunkBlock(i, tag, toks, index).value[1 + j] == TokenLine(i, j, toks[j]).value
  {
    forall j | 0 <= j < |toks|
      ensures TokenLine(i, j, toks[j]).Ok?
      ensures ChunkBlock(i, tag, toks, index).value[1 + j] == TokenLine(i, j, toks[j]).value
    {
      ScanTokensLines(i, toks, index, j);
    }
  }

  /** Lines the first `n` chunks take: one bracket line, the token lines and a
      closing line each. */
  function Offset(c: Chunks, n: nat): nat
    requires c.Valid() && n <= |c.order|
  {
    if n == 0 then 0 else Offset(c, n - 1) + |c.members[c.order[n - 1]]| + 2
  }

  /** The first `n` chunks take their tokens' lines and two more lines each. */
  lemma {:induction false} OffsetTotal(c: Chunks, n: nat)
    requires c.Valid() && n <= |c.order|
    ensures Offset(c, n) == TotalLength(c.order[..n], c.members) + 2 * n
  {
    if n > 0 {
      OffsetTotal(c, n - 1);
      assert c.order[..n][..n - 1] == c.order[..n - 1];
    }
  }

  /** The block of the chunk at each position of the dictionary. */
  function Blocks(c: Chunks, index: map<string, string>): nat -> Result<seq<string>> {
    (p: nat) => if p < |c.order| && c.order[p] in c.members then ChunkBlock(p, c.order[p], c.members[c.order[p]], index)
         else Ok([])
  }

  lemma BlocksAt(c: Chunks, index: map<string, string>, p: nat)
    requires c.Valid() && p < |c.order|
    ensures Blocks(c, index)(p) == ChunkBlock(p, c.order[p], c.members[c.order[p]], index)
  {
  }

  /** The lines of the first `n` chunks, in chunk order; the first failing
      chunk aborts it. */
  function EncodeChunks(c: Chunks, index: map<string, string>, n: nat): Result<seq<string>>
    requires c.Valid() && n <= |c.order|
  {
    ConcatAll(Blocks(c, index), n)
  }

  /** The first `n` chunks take `Offset(c, n)` lines. */
  lemma {:induction false} EncodeChunksLength(c: Chunks, index: map<string, string>, n: nat)
    requires c.Valid() && n <= |c.order|
    requires EncodeChunks(c, index, n).Ok?
    ensures |EncodeChunks(c, index, n).value| == Offset(c, n)
  {
    if n > 0 {
      BlocksAt(c, index, n - 1);
      EncodeChunksLength(c, index, n - 1);
    }
  }

  /** Layout: chunk `p` occupies lines `Offset(p)` to `Offset(p + 1) - 1` of the
      output, in chunk order. */
  lemma EncodeChunksBlock(c: Chunks, index: map<string, string>, n: nat, p: nat)
    requires c.Valid() && n <= |c.order| && p < n
    requires EncodeChunks(c, index, n).Ok?
    ensures ChunkBlock(p, c.order[p], c.members[c.order[p]], index).Ok?
    ensures Offset(c, p + 1) <= |EncodeChunks(c, index, n).value|
    ensures EncodeChunks(c, index, n).value[Offset(c, p)..Offset(c, p + 1)] ==
              ChunkBlock(p, c.order[p], c.members[c.order[p]], index).value
  {
    var f := Blocks(c, index);
    var tag := c.order[p];
    var toks := c.members[tag];
    ConcatAllBlock(f, n, p);
    assert f(p) == ChunkBlock(p, tag, toks, index) by {
      BlocksAt(c, index, p);
    }
    assert |ConcatAll(f, p).value| == Offset(c, p) by {
      EncodeChunksLength(c, index, p);
    }
    assert |f(p).value| == |toks| + 2;
    PlaceBlock(EncodeChunks(c, index, n).value, ConcatAll(f, p).value, f(p).value, Offset(c, p), Offset(c, p + 1));
  }

  lemma PlaceBlock(lines: seq<string>, before: seq<string>, block: seq<string>, lo: nat, hi: nat)
    requires |before| + |block| <= |lines| && lines[|before|..|before| + |block|] == block
    requires lo == |before| && hi == lo + |block|
    ensures hi <= |lines| && lines[lo..hi] == block
  {
  }

  /** The sentence encodes exactly when every chunk does. */
  lemma EncodeChunksSucceeds(c: Chunks, index: map<string, string>, n: nat)
    requires c.Valid() && n <= |c.order|
    ensures EncodeChunks(c, index, n).Ok? <==>
              forall p :: 0 <= p < n ==> ChunkBlock(p, c.order[p], c.members[c.order[p]], index).Ok?
  {
    ConcatAllSucceeds(Blocks(c, index), n);
    forall p | 0 <= p < n {
      BlocksAt(c, index, p);
    }
  }

  /** The sentence text: all chunk lines joined by newlines. */
  function EncodeSentence(c: Chunks, index: map<string, string>): Result<string>
    requires c.Valid()
  {
    match EncodeChunks(c, index, |c.order|)
    case Err(e) => Err(e)
    case Ok(lines) => Ok(Join(lines, '\n'))
  }

  /** The whole chunk-level picture of one sentence: chunk `p` takes the
      lines from `Offset(p)` on, its token lines at addresses `p+1.1, p+1.2, …`
      right after its bracket line. */
  lemma EncodeLayout(c: Chunks, index: map<string, string>, lines: seq<string>, p: nat, j: nat)
    requires c.Valid() && p < |c.order|
    requires EncodeChunks(c, index, |c.order|) == Ok(lines)
    requires j < |c.members[c.order[p]]|
    ensures Offset(c, p + 1) == Offset(c, p) + |c.members[c.order[p]]| + 2 <= |lines|
    ensures TokenLine(p, j, c.members[c.order[p]][j]).Ok?
    ensures lines[Offset(c, p) + (1 + j)] == TokenLine(p, j, c.members[c.order[p]][j]).value
  {
    EncodeChunksBlock(c, index, |c.order|, p);
    TokenInBlock(lines, Offset(c, p), p, c.order[p], c.members[c.order[p]], index, j);
  }

  /** The bracket line of chunk `p` is line `Offset(p)`, and its closing line
      follows its last token line. */
  lemma EncodeBrackets(c: Chunks, index: map<string, string>, lines: seq<string>, p: nat)
    requires c.Valid() && p < |c.order|
    requires EncodeChunks(c, index, |c.order|) == Ok(lines)
    ensures Offset(c, p + 1) == Offset(c, p) + |c.members[c.order[p]]| + 2 <= |lines|
    ensures UpperRun(c.order[p]).Some?
    ensures ScanTokens(p, c.members[c.order[p]], index).Ok?
    ensures lines[Offset(c, p)] ==
              ChunkLine(p, UpperRun(c.order[p]).value, c.order[p], ScanTokens(p, c.members[c.order[p]], index).value.drel)
    ensures lines[Offset(c, p) + (|c.members[c.order[p]]| + 1)] == "\t))"
  {
    EncodeChunksBlock(c, index, |c.order|, p);
    BracketsOfBlock(lines, Offset(c, p), p, c.order[p], c.members[c.order[p]], index);
  }

  /** A token line inside a chunk block placed at line `lo`. */
  lemma TokenInBlock(lines: seq<string>, lo: nat, i: nat, tag: string, toks: seq<Token>, index: map<string, string>, j: nat)
    requires ChunkBlock(i, tag, toks, index).Ok? && j < |toks|
    requires lo + |toks| + 2 <= |lines| && lines[lo..lo + |toks| + 2] == ChunkBlock(i, tag, toks, index).value
    ensures TokenLine(i, j, toks[j]).Ok?
    ensures lines[lo + (1 + j)] == TokenLine(i, j, toks[j]).value
  {
    var b := ChunkBlock(i, tag, toks, index).value;
    assert TokenLine(i, j, toks[j]).Ok? && b[1 + j] == TokenLine(i, j, toks[j]).value by {
      ChunkBlockLayout(i, tag, toks, index);
    }
    BlockElement(lines, lo, b, lo + (1 + j), 1 + j);
  }

  /** The bracket line and the closing line of a chunk block placed at line `lo`. */
  lemma BracketsOfBlock(lines: seq<string>, lo: nat, i: nat, tag: string, toks: seq<Token>, index: map<string, string>)
    requires ChunkBlock(i, tag, toks, index).Ok?
    requires lo + |toks| + 2 <= |lines| && lines[lo..lo + |toks| + 2] == ChunkBlock(i, tag, toks, index).value
    ensures UpperRun(tag).Some? && ScanTokens(i, toks, index).Ok?
    ensures lines[lo] == ChunkLine(i, UpperRun(tag).value, tag, ScanTokens(i, toks, index).value.drel)
    ensures lines[lo + (|toks| + 1)] == "\t))"
  {
    var b := ChunkBlock(i, tag, toks, index).value;
    assert b[0] == ChunkLine(i, UpperRun(tag).value, tag, ScanTokens(i, toks, index).value.drel);
    BlockElement(lines, lo, b, lo + 0, 0);
    BlockElement(lines, lo, b, lo + (|toks| + 1), |toks| + 1);
  }

  /** Line `i` of `s` is line `k` of the block `b` that starts at `lo`. */
  lemma BlockElement(s: seq<string>, lo: nat, b: seq<string>, i: nat, k: nat)
    requires lo + |b| <= |s| && s[lo..lo + |b|] == b && k < |b| && i == lo + k
    ensures s[i] == b[k]
  {
    assert s[lo..lo + |b|][k] == s[i];
  }

  /** `convert_into_interchunk_ssf_from_chunk_info_and_other_dicts_for_sentence`:
      two nested loops that append the token lines of each chunk, overwrite
      the chunk relation at every head token with `drel`, and then append the
      bracket line, the token lines and the closing line. */
  method Encode(chunks: Chunks, index: map<string, string>) returns (r: Result<string>)
    requires chunks.Valid()
    ensures r == EncodeSentence(chunks, index)
  {
    var ssf: seq<string> := [];
    for i := 0 to |chunks.order|
      invariant EncodeChunks(chunks, index, i) == Ok(ssf)
    {
      var tag := chunks.order[i];
      var toks := chunks.members[tag];
      var addr := NatToString(i + 1);
      var tokensInfo: seq<string> := [];
      var chunkDrel := "";
      for j := 0 to |toks|
        invariant ScanTokens(i, toks[..j], index) == Ok(Scan(tokensInfo, chunkDrel))
      {
        var tok := toks[j];
        ScanTokensStep(i, toks, index, j);
        var tokenAddr := addr + "." + NatToString(j + 1);
        if "af" !in tok.feats {
          FailChunk(chunks, index, i, j);
          return Err(MissingFeature("af"));
        }
        var morphText := "<fs af='" + tok.feats["af"] + "' name='" + tok.surface + "'>";
        tokensInfo := tokensInfo + [Join([tokenAddr, tok.surface, tok.pos, morphText], '\t')];
        if tok.head {
          if "drel" in tok.feats {
            var parts := SplitOnce(tok.feats["drel"], ':');
            if parts.None? {
              FailChunk(chunks, index, i, j);
              return Err(MalformedRelation(tok.feats["drel"]));
            }
            var (drelLabel, parent) := parts.value;
            if parent !in index {
              FailChunk(chunks, index, i, j);
              return Err(DanglingRelation(parent));
            }
            chunkDrel := drelLabel + ":" + index[parent];
          }
        }
      }
      assert toks[..|toks|] == toks;
      var chunkFeatures := if chunkDrel != "" then "<fs drel='" + chunkDrel + "' name='" + tag + "'>"
                           else "<fs name='" + tag + "'>";
      var tagNoNumeral := UpperRun(tag);
      if tagNoNumeral.None? {
        assert EncodeChunks(chunks, index, i + 1) == Err(NoChunkLabel(tag)) by {
          BlocksAt(chunks, index, i);
        }
        ConcatAllFailed(Blocks(chunks, index), i + 1, |chunks.order|);
        return Err(NoChunkLabel(tag));
      }
      var chunkLine := Join([addr, "((", tagNoNumeral.value, chunkFeatures], '\t');
      assert EncodeChunks(chunks, index, i + 1) == Ok(ssf + ([chunkLine] + tokensInfo + ["\t))"])) by {
        assert chunkLine == ChunkLine(i, tagNoNumeral.value, tag, chunkDrel);
        assert ChunkBlock(i, tag, toks, index) == Ok([chunkLine] + tokensInfo + ["\t))"]);
        BlocksAt(chunks, index, i);
      }
      ssf := ssf + ([chunkLine] + tokensInfo + ["\t))"]);
    }
    return Ok(Join(ssf, '\n'));
  }

  /** A failure in the token loop of chunk `i` is the failure of the sentence. */
  lemma FailChunk(c: Chunks, index: map<string, string>, i: nat, j: nat)
    requires c.Valid() && i < |c.order| && EncodeChunks(c, index, i).Ok?
    requires j < |c.members[c.order[i]]|
    requires ScanTokens(i, c.members[c.order[i]][..j + 1], index).Err?
    ensures EncodeSentence(c, index) == Err(ScanTokens(i, c.members[c.order[i]][..j + 1], index).error)
  {
    ScanTokensFailed(i, c.members[c.order[i]], index, j + 1);
    BlocksAt(c, index, i);
    ConcatAllFailed(Blocks(c, index), i + 1, |c.order|);
  }
}
