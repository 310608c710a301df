/** Chunk decoding (`find_chunks_and_other_info_from_morph_info`): every token
    gets a `name` and a `head` flag, head tokens are indexed by name, and the
    tokens are grouped by chunk tag in order of first appearance. */
module Decoder {
  import opened Results
  import opened Text
  import opened Features

  /** One body line after its feature block is read: surface form, part of
      speech and features. */
  datatype RawToken = RawToken(surface: string, pos: string, feats: FeatureMap)

  /** A token after decoding: `feats` holds `name`, and `head` is the `head`
      entry the converter writes into the same dictionary (1 is `true`). */
  datatype Token = Token(surface: string, pos: string, feats: FeatureMap, head: bool)

  /** The ordered dictionary from chunk tag to token list: the tags in
      insertion order and the list of each. */
  datatype Chunks = Chunks(order: seq<string>, members: map<string, seq<Token>>)
  {
    /** Keys are distinct and the listed tags are exactly the keys. */
    ghost predicate Valid() {
      && (forall p, q :: 0 <= p < q < |order| ==> order[p] != order[q])
      && (forall t :: t in members <==> t in order)
    }
  }

  /** The chunks of a sentence and the index from head-token name to chunk tag. */
  datatype Decoded = Decoded(chunks: Chunks, index: map<string, string>)

  /** The identifier a token is known by: its `name` feature. */
  function Name(tok: Token): string {
    if "name" in tok.feats then tok.feats["name"] else tok.surface
  }

  /** The features with `name` defaulted to the surface form. */
  function WithName(raw: RawToken): (f: FeatureMap)
    ensures "name" in f
    ensures f["name"] == if "name" in raw.feats then raw.feats["name"] else raw.surface
    ensures forall k :: k != "name" ==> (k in f <==> k in raw.feats)
    ensures forall k :: k in raw.feats ==> k in f && (k == "name" || f[k] == raw.feats[k])
  {
    if "name" in raw.feats then raw.feats else raw.feats["name" := raw.surface]
  }

  /** The role and the chunk tag that `chunkType` holds on either side of its
      one `:`; a missing or malformed `chunkType` fails. */
  function ChunkRole(feats: FeatureMap): (r: Result<(string, string)>)
    ensures "chunkType" !in feats ==> r == Err(MissingFeature("chunkType"))
    ensures "chunkType" in feats ==> (r.Ok? <==> Count(feats["chunkType"], ':') == 1)
    ensures "chunkType" in feats && r.Err? ==> r.error == MalformedChunkType(feats["chunkType"])
    ensures r.Ok? ==> feats["chunkType"] == r.value.0 + ":" + r.value.1
  {
    if "chunkType" !in feats then Err(MissingFeature("chunkType"))
    else
      match SplitOnce(feats["chunkType"], ':')
      case None => Err(MalformedChunkType(feats["chunkType"]))
      case Some(parts) => Ok(parts)
  }

  /** One token decoded, with the tag of its chunk. */
  function DecodeToken(raw: RawToken): Result<(Token, string)>
  {
    var feats := WithName(raw);
    match ChunkRole(feats)
    case Err(e) => Err(e)
    case Ok((role, tag)) => Ok((Token(raw.surface, raw.pos, feats, role != "child"), tag))
  }

  /** What decoding one token means: it succeeds exactly when `chunkType` is
      present with one `:`; the token keeps its surface form and part of
      speech, gets its `name`, and is a head unless its role is `child`. */
  lemma DecodeTokenMeaning(raw: RawToken)
    ensures DecodeToken(raw).Ok? <==>
              "chunkType" in raw.feats && Count(raw.feats["chunkType"], ':') == 1
    ensures "chunkType" !in raw.feats ==> DecodeToken(raw) == Err(MissingFeature("chunkType"))
    ensures DecodeToken(raw).Ok? ==>
              var (tok, tag) := DecodeToken(raw).value;
              && tok.surface == raw.surface && tok.pos == raw.pos
              && tok.feats == WithName(raw)
              && Name(tok) == (if "name" in raw.feats then raw.feats["name"] else raw.surface)
              && (tok.head <==> raw.feats["chunkType"] != "child:" + tag)
  {
    var feats := WithName(raw);
    if DecodeToken(raw).Ok? {
      var (role, tag) := ChunkRole(feats).value;
      var ct := feats["chunkType"];
      assert ct == role + ":" + tag;
      if ct == "child:" + tag {
        assert |role| == 5;
        assert role == ct[..5];
      }
    }
  }

  /** The token list decoded in order; the first failing token aborts it. */
  function DecodeAll(raws: seq<RawToken>): (r: Result<seq<(Token, string)>>)
    ensures r.Ok? ==> |r.value| == |raws|
  {
    MapAll(DecodeToken, raws)
  }

  // ---------------------------------------------------------------------------
  // grouping, stated over the decoded tokens

  function Tags(ts: seq<(Token, string)>): (tags: seq<string>)
    ensures |tags| == |ts| && forall i :: 0 <= i < |ts| ==> tags[i] == ts[i].1
  {
    seq(|ts|, i requires 0 <= i < |ts| => ts[i].1)
  }

  /** The distinct elements of `tags`, each where it first appears. */
  function FirstOccurrences(tags: seq<string>): (r: seq<string>)
    ensures forall p, q :: 0 <= p < q < |r| ==> r[p] != r[q]
    ensures forall t :: t in r <==> t in tags
  {
    if tags == [] then []
    else
      var r := FirstOccurrences(tags[..|tags| - 1]);
      var t := tags[|tags| - 1];
      assert forall u :: u in tags <==> u in tags[..|tags| - 1] || u == t;
      if t in r then r else r + [t]
  }

  /** Index of the first occurrence of `t` in `s`. */
  function FirstIndex(s: seq<string>, t: string): (k: nat)
    requires t in s
    ensures k < |s| && s[k] == t && forall j :: 0 <= j < k ==> s[j] != t
  {
    if s[0] == t then 0 else 1 + FirstIndex(s[1..], t)
  }

  /** The chunk order is the order of first appearance of the tags. */
  lemma {:induction false} FirstOccurrencesOrdered(tags: seq<string>, p: nat, q: nat)
    requires p < q < |FirstOccurrences(tags)|
    ensures FirstIndex(tags, FirstOccurrences(tags)[p]) < FirstIndex(tags, FirstOccurrences(tags)[q])
  {
    var n := |tags| - 1;
    var pre := tags[..n];
    var r := FirstOccurrences(pre);
    var a, b := FirstOccurrences(tags)[p], FirstOccurrences(tags)[q];
    assert a in pre by { assert a == r[p]; }
    FirstIndexPrefix(tags, n, a);
    if q < |r| {
      FirstOccurrencesOrdered(pre, p, q);
      FirstIndexPrefix(tags, n, b);
    } else {
      assert b == tags[n] && b !in pre;
    }
  }

  lemma FirstIndexPrefix(s: seq<string>, n: nat, t: string)
    requires n <= |s| && t in s[..n]
    ensures FirstIndex(s, t) == FirstIndex(s[..n], t)
  {
    var k := FirstIndex(s[..n], t);
    assert s[k] == t;
  }

  /** The tokens of chunk `tag`: exactly the input tokens that carry `tag`,
      in input order. */
  function Filter(ts: seq<(Token, string)>, tag: string): seq<Token>
  {
    if ts == [] then []
    else
      var last := ts[|ts| - 1];
      Filter(ts[..|ts| - 1], tag) + (if last.1 == tag then [last.0] else [])
  }

  /** A token is in the list of chunk `tag` exactly when it was read with that tag. */
  lemma {:induction false} FilterMembers(ts: seq<(Token, string)>, tag: string, tok: Token)
    ensures tok in Filter(ts, tag) <==> exists i :: 0 <= i < |ts| && ts[i] == (tok, tag)
  {
    if ts != [] {
      var n := |ts| - 1;
      var p := ts[..n];
      FilterMembers(p, tag, tok);
      if exists i :: 0 <= i < |ts| && ts[i] == (tok, tag) {
        var i :| 0 <= i < |ts| && ts[i] == (tok, tag);
        if i < n {
          assert p[i] == ts[i];
        }
      }
      if exists i :: 0 <= i < |p| && p[i] == (tok, tag) {
        var i :| 0 <= i < |p| && p[i] == (tok, tag);
        assert ts[i] == p[i];
      }
    }
  }

  lemma {:induction false} FilterAbsent(ts: seq<(Token, string)>, tag: string)
    requires tag !in Tags(ts)
    ensures Filter(ts, tag) == []
  {
    if ts != [] {
      var p := ts[..|ts| - 1];
      assert Tags(p) == Tags(ts)[..|p|];
      FilterAbsent(p, tag);
    }
  }

  /** The ordered dictionary from chunk tag to tokens: tags in order of first
      appearance, each with the tokens that carry it. */
  function Group(ts: seq<(Token, string)>): (c: Chunks)
    ensures c.Valid()
  {
    Chunks(FirstOccurrences(Tags(ts)), map t | t in Tags(ts) :: Filter(ts, t))
  }

  /** The index from the name of each head token to the tag of its chunk. */
  function HeadIndex(ts: seq<(Token, string)>): map<string, string>
  {
    if ts == [] then map[]
    else
      var m := HeadIndex(ts[..|ts| - 1]);
      var (tok, tag) := ts[|ts| - 1];
      if tok.head then m[Name(tok) := tag] else m
  }

  /** A name is indexed exactly when some head token carries it. */
  lemma {:induction false} HeadIndexKeys(ts: seq<(Token, string)>, name: string)
    ensures name in HeadIndex(ts) <==>
              exists i :: 0 <= i < |ts| && ts[i].0.head && Name(ts[i].0) == name
  {
    if ts != [] {
      var n := |ts| - 1;
      var p := ts[..n];
      HeadIndexKeys(p, name);
      if exists i :: 0 <= i < |ts| && ts[i].0.head && Name(ts[i].0) == name {
        var i :| 0 <= i < |ts| && ts[i].0.head && Name(ts[i].0) == name;
        if i < n {
          assert p[i] == ts[i];
        }
      }
      if name in HeadIndex(p) {
        var i :| 0 <= i < |p| && p[i].0.head && Name(p[i].0) == name;
        assert ts[i] == p[i];
      }
    }
  }

  /** The last head token with a given name decides its chunk in the index. */
  lemma {:induction false} HeadIndexLastWins(ts: seq<(Token, string)>, i: nat)
    requires i < |ts| && ts[i].0.head
    requires forall j :: i < j < |ts| ==> !(ts[j].0.head && Name(ts[j].0) == Name(ts[i].0))
    ensures Name(ts[i].0) in HeadIndex(ts) && HeadIndex(ts)[Name(ts[i].0)] == ts[i].1
  {
    var n := |ts| - 1;
    if i < n {
      var p := ts[..n];
      assert p[i] == ts[i];
      HeadIndexLastWins(p, i);
    }
  }

  /** Sum of the lengths of the lists of the tags in `order`. */
  function TotalLength(order: seq<string>, members: map<string, seq<Token>>): nat
    requires forall t :: t in order ==> t in members
  {
    if order == [] then 0
    else TotalLength(order[..|order| - 1], members) + |members[order[|order| - 1]]|
  }

  lemma {:induction false} TotalLengthSame(order: seq<string>, m: map<string, seq<Token>>, m': map<string, seq<Token>>)
    requires forall t :: t in order ==> t in m && t in m' && |m[t]| == |m'[t]|
    ensures TotalLength(order, m) == TotalLength(order, m')
  {
    if order != [] {
      TotalLengthSame(order[..|order| - 1], m, m');
    }
  }

  lemma {:induction false} TotalLengthBump(order: seq<string>, m: map<string, seq<Token>>, tag: string, tok: Token)
    requires forall t :: t in order ==> t in m
    requires forall p, q :: 0 <= p < q < |order| ==> order[p] != order[q]
    requires tag in order
    ensures TotalLength(order, m[tag := m[tag] + [tok]]) == TotalLength(order, m) + 1
  {
    var n := |order| - 1;
    var pre := order[..n];
    if order[n] == tag {
      assert tag !in pre;
      TotalLengthSame(pre, m, m[tag := m[tag] + [tok]]);
    } else {
      TotalLengthBump(pre, m, tag, tok);
    }
  }

  lemma TagsSnoc(ts: seq<(Token, string)>, x: (Token, string))
    ensures Tags(ts + [x]) == Tags(ts) + [x.1]
  {
  }

  lemma FilterSnoc(ts: seq<(Token, string)>, x: (Token, string), t: string)
    ensures Filter(ts + [x], t) == Filter(ts, t) + (if x.1 == t then [x.0] else [])
  {
    assert (ts + [x])[..|ts|] == ts;
  }

  lemma GroupStep(ts: seq<(Token, string)>, tok: Token, tag: string)
    ensures var c := Group(ts);
      Group(ts + [(tok, tag)]).order == (if tag in c.members then c.order else c.order + [tag])
    ensures var c := Group(ts);
      Group(ts + [(tok, tag)]).members ==
        c.members[tag := (if tag in c.members then c.members[tag] else []) + [tok]]
  {
    var ts' := ts + [(tok, tag)];
    var tags := Tags(ts');
    assert tags[..|tags| - 1] == Tags(ts) by {
      TagsSnoc(ts, (tok, tag));
    }
    GroupStepMembers(ts, tok, tag);
  }

  lemma GroupStepMembers(ts: seq<(Token, string)>, tok: Token, tag: string)
    ensures var m := Group(ts).members;
      Group(ts + [(tok, tag)]).members == m[tag := (if tag in m then m[tag] else []) + [tok]]
  {
    var ts' := ts + [(tok, tag)];
    var m := Group(ts).members;
    var m' := Group(ts').members;
    var want := m[tag := (if tag in m then m[tag] else []) + [tok]];
    GroupKeys(ts, tok, tag);
    forall t | t in m'
      ensures m'[t] == want[t]
    {
      GroupMember(ts, tok, tag, t);
    }
  }

  lemma GroupKeys(ts: seq<(Token, string)>, tok: Token, tag: string)
    ensures forall t :: t in Group(ts + [(tok, tag)]).members <==> t in Group(ts).members || t == tag
  {
    TagsSnoc(ts, (tok, tag));
  }

  lemma GroupMember(ts: seq<(Token, string)>, tok: Token, tag: string, t: string)
    requires t in Tags(ts + [(tok, tag)])
    ensures var m := Group(ts).members;
      Filter(ts + [(tok, tag)], t) ==
        if t == tag then (if tag in m then m[tag] else []) + [tok] else m[t]
  {
    TagsSnoc(ts, (tok, tag));
    FilterSnoc(ts, (tok, tag), t);
    if t == tag && tag !in Tags(ts) {
      FilterAbsent(ts, tag);
    }
  }

  /** Grouping keeps every token: the list lengths add up to the number of tokens. */
  lemma {:induction false} GroupKeepsTokens(ts: seq<(Token, string)>)
    ensures TotalLength(Group(ts).order, Group(ts).members) == |ts|
  {
    if ts != [] {
      var n := |ts| - 1;
      var p := ts[..n];
      assert p + [ts[n]] == ts;
      GroupKeepsTokens(p);
      GroupStep(p, ts[n].0, ts[n].1);
      var c, c' := Group(p), Group(ts);
      var tag := ts[n].1;
      if tag in c.members {
        TotalLengthBump(c.order, c.members, tag, ts[n].0);
      } else {
        TotalLengthSame(c.order, c.members, c'.members);
        assert c'.order[..|c.order|] == c.order;
      }
    }
  }

  /** The result of `find_chunks_and_other_info_from_morph_info`. */
  function Decode(raws: seq<RawToken>): (r: Result<Decoded>)
    ensures r.Ok? ==> r.value.chunks.Valid()
  {
    match DecodeAll(raws)
    case Err(e) => Err(e)
    case Ok(ts) => Ok(Decoded(Group(ts), HeadIndex(ts)))
  }

  /** `find_chunks_and_other_info_from_morph_info`: one pass over the tokens
      that defaults `name`, sets `head`, fills the head index and appends each
      token to the list of its chunk. */
  method FindChunks(raws: seq<RawToken>) returns (r: Result<Decoded>)
    ensures r == Decode(raws)
  {
    var index: map<string, string> := map[];
    var order: seq<string> := [];
    var members: map<string, seq<Token>> := map[];
    ghost var done: seq<(Token, string)> := [];
    for i := 0 to |raws|
      invariant DecodeAll(raws[..i]) == Ok(done)
      invariant Chunks(order, members) == Group(done)
      invariant index == HeadIndex(done)
    {
      var raw := raws[i];
      var feats := raw.feats;
      if "name" !in feats {
        feats := feats["name" := raw.surface];
      }
      var name := feats["name"];
      if "chunkType" !in feats {
        assert DecodeAll(raws) == Err(MissingFeature("chunkType")) by {
          MapAllFailAt(DecodeToken, raws, i, done);
        }
        return Err(MissingFeature("chunkType"));
      }
      var parts := SplitOnce(feats["chunkType"], ':');
      if parts.None? {
        assert DecodeAll(raws) == Err(MalformedChunkType(feats["chunkType"])) by {
          MapAllFailAt(DecodeToken, raws, i, done);
        }
        return Err(MalformedChunkType(feats["chunkType"]));
      }
      var (role, tag) := parts.value;
      var isHead := role != "child";
      if isHead {
        index := index[name := tag];
      }
      var tok := Token(raw.surface, raw.pos, feats, isHead);
      assert DecodeAll(raws[..i + 1]) == Ok(done + [(tok, tag)]) by {
        assert DecodeToken(raw) == Ok((tok, tag));
        MapAllStep(DecodeToken, raws, i);
      }
      assert index == HeadIndex(done + [(tok, tag)]) by {
        HeadIndexStep(done, tok, tag);
      }
      ghost var grown := Group(done + [(tok, tag)]);
      assert grown.order == (if tag in members then order else order + [tag])
          && grown.members == members[tag := (if tag in members then members[tag] else []) + [tok]] by {
        GroupStep(done, tok, tag);
      }
      // the chunk's list is created on the first token of the chunk, then appended to
      var list := if tag in members then members[tag] else [];
      if tag !in members {
        order := order + [tag];
      }
      members := members[tag := list + [tok]];
      assert Chunks(order, members) == grown;
      done := done + [(tok, tag)];
    }
    assert raws[..|raws|] == raws;
    return Ok(Decoded(Chunks(order, members), index));
  }

  lemma HeadIndexStep(ts: seq<(Token, string)>, tok: Token, tag: string)
    ensures HeadIndex(ts + [(tok, tag)]) ==
              if tok.head then HeadIndex(ts)[Name(tok) := tag] else HeadIndex(ts)
  {
    assert (ts + [(tok, tag)])[..|ts|] == ts;
  }

}
