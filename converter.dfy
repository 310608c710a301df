/** The per-sentence driver (`convert_into_interchunk_ssf_for_sentences`):
    every body line is cut into its four tab-separated fields, the feature
    block is read, the tokens are decoded into chunks and encoded again, and
    the sentence is written between its (quote-rewritten) header and its
    footer. */
module Converter {
  import opened Results
  import opened Text
  import opened Features
  import opened Decoder
  import opened Encoder

  /** One sentence as it is cut out of the input text: the `<Sentence id=…>`
      line, the token lines between, and the `</Sentence>` line. */
  datatype Sentence = Sentence(header: string, body: string, footer: string)

  /** The feature text of a fourth field `<fs …>`: the first four and the last
      character cut off. */
  function FeatureText(field: string): (r: string)
    ensures |field| > 4 ==> field == field[..4] + r + [field[|field| - 1]]
    ensures |field| <= 4 ==> r == []
  {
    Inner(field, 4)
  }

  /** One intra-chunk body line `address TAB surface TAB pos TAB <fs …>`. */
  function ParseLine(line: string): Result<RawToken>
  {
    var fields := Split(line, '\t');
    if |fields| != 4 then Err(MalformedLine(line))
    else
      match FeatureDict(Words(FeatureText(fields[3])))
      case Err(e) => Err(e)
      case Ok(feats) => Ok(RawToken(fields[1], fields[2], feats))
  }

  /** A line that does not hold exactly three tabs cannot be unpacked into
      four fields; otherwise the line is read exactly when its feature block
      is, the surface form and part of speech are the second and third
      fields, and the features are those of the fourth field. */
  lemma ParseLineMeaning(line: string)
    ensures Count(line, '\t') != 3 ==> ParseLine(line) == Err(MalformedLine(line))
    ensures Count(line, '\t') == 3 ==>
              var fields := Split(line, '\t');
              && (ParseLine(line).Ok? <==> FeatureDict(Words(FeatureText(fields[3]))).Ok?)
              && (ParseLine(line).Err? ==> ParseLine(line).error == FeatureDict(Words(FeatureText(fields[3]))).error)
    ensures ParseLine(line).Ok? ==>
              var fields := Split(line, '\t');
              var raw := ParseLine(line).value;
              && line == Join([fields[0], raw.surface, raw.pos, fields[3]], '\t')
              && FeatureDict(Words(FeatureText(fields[3]))) == Ok(raw.feats)
  {
    var fields := Split(line, '\t');
    if |fields| == 4 {
      JoinSplit(line, '\t');
      assert fields == [fields[0], fields[1], fields[2], fields[3]];
    }
  }

  /** The body lines read in order; the first failing line aborts it. */
  function ParseLines(lines: seq<string>): (r: Result<seq<RawToken>>)
    ensures r.Ok? ==> |r.value| == |lines|
  {
    MapAll(ParseLine, lines)
  }

  /** The header with every double quote turned into a single quote. */
  function QuoteHeader(header: string): (r: string)
    ensures |r| == |header| && '"' !in r
    ensures forall i :: 0 <= i < |header| ==> r[i] == (if header[i] == '"' then '\'' else header[i])
  {
    Replace(header, '"', '\'')
  }

  /** Quote rewriting touches no other character: any character other than
      the two quotes occurs in the rewritten header exactly when it occurs in
      the header. */
  lemma QuoteHeaderKeeps(header: string, c: char)
    requires c != '"' && c != '\''
    ensures c in QuoteHeader(header) <==> c in header
  {
    var r := QuoteHeader(header);
    if c in r {
      var k :| 0 <= k < |r| && r[k] == c;
      assert header[k] == c;
    }
    if c in header {
      var k :| 0 <= k < |header| && header[k] == c;
      assert r[k] == c;
    }
  }

  /** The tokens of a sentence's body, one per line. */
  function SentenceTokens(s: Sentence): Result<seq<RawToken>> {
    ParseLines(Split(s.body, '\n'))
  }

  /** The chunk-level lines of a sentence. */
  function SentenceLines(s: Sentence): (r: Result<seq<string>>)
  {
    match SentenceTokens(s)
    case Err(e) => Err(e)
    case Ok(raws) =>
      match Decode(raws)
      case Err(e) => Err(e)
      case Ok(d) => EncodeChunks(d.chunks, d.index, |d.chunks.order|)
  }

  /** The sentence text framed by the quote-rewritten header and the footer,
      each on a line of its own, with a final newline. */
  function Frame(header: string, text: string, footer: string): string {
    Join([QuoteHeader(header), text, footer], '\n') + "\n"
  }

  /** One converted sentence. */
  function ConvertSentence(s: Sentence): Result<string>
  {
    match SentenceLines(s)
    case Err(e) => Err(e)
    case Ok(lines) => Ok(Frame(s.header, Join(lines, '\n'), s.footer))
  }

  /** A body line that is not four tab-separated fields fails the sentence,
      when every line before it is well formed. */
  lemma MalformedLineFails(s: Sentence, i: nat)
    requires i < |Split(s.body, '\n')|
    requires Count(Split(s.body, '\n')[i], '\t') != 3
    requires forall j :: 0 <= j < i ==> ParseLine(Split(s.body, '\n')[j]).Ok?
    ensures ConvertSentence(s) == Err(MalformedLine(Split(s.body, '\n')[i]))
    ensures SentenceLines(s) == Err(MalformedLine(Split(s.body, '\n')[i]))
  {
    ParseLineMeaning(Split(s.body, '\n')[i]);
    MapAllFirstError(ParseLine, Split(s.body, '\n'), i);
  }

  /** The framed text, line by line: the quote-rewritten header, the chunk
      lines, the footer and an empty last field after the final newline. */
  lemma FrameLines(header: string, lines: seq<string>, footer: string)
    requires lines != []
    ensures Frame(header, Join(lines, '\n'), footer) ==
              Join([QuoteHeader(header)] + lines + [footer, ""], '\n')
  {
    var h := QuoteHeader(header);
    var text := Join(lines, '\n');
    JoinAppend([h], lines, '\n');
    JoinAppend([h] + lines, [footer, ""], '\n');
    assert Join([footer, ""], '\n') == footer + "\n" by {
      assert [footer, ""][1..] == [""];
    }
    assert Join([h, text, footer], '\n') == h + "\n" + (text + "\n" + footer) by {
      assert [h, text, footer] == [h] + [text, footer];
      JoinAppend([h], [text, footer], '\n');
      assert [text, footer][1..] == [footer];
    }
  }

  /** Reading the output back: when the header, the footer and every chunk
      line are free of newlines, splitting the framed text at newlines gives
      back the quote-rewritten header, the chunk lines in order, the footer
      and the empty field after the final newline. */
  lemma FrameReadBack(header: string, lines: seq<string>, footer: string)
    requires lines != []
    requires '\n' !in header && '\n' !in footer
    requires forall i :: 0 <= i < |lines| ==> '\n' !in lines[i]
    ensures Split(Frame(header, Join(lines, '\n'), footer), '\n') ==
              [QuoteHeader(header)] + lines + [footer, ""]
  {
    var parts := [QuoteHeader(header)] + lines + [footer, ""];
    FrameLinesFree(header, lines, footer);
    SplitJoin(parts, '\n');
    FrameLines(header, lines, footer);
  }

  lemma FrameLinesFree(header: string, lines: seq<string>, footer: string)
    requires '\n' !in header && '\n' !in footer
    requires forall i :: 0 <= i < |lines| ==> '\n' !in lines[i]
    ensures forall i :: 0 <= i < |[QuoteHeader(header)] + lines + [footer, ""]| ==>
              '\n' !in ([QuoteHeader(header)] + lines + [footer, ""])[i]
  {
    var parts := [QuoteHeader(header)] + lines + [footer, ""];
    QuoteHeaderKeeps(header, '\n');
    forall i | 0 <= i < |parts|
      ensures '\n' !in parts[i]
    {
      if i == 0 {
        assert parts[i] == QuoteHeader(header);
      } else if i <= |lines| {
        assert parts[i] == lines[i - 1];
      } else if i == |lines| + 1 {
        assert parts[i] == footer;
      } else {
        assert parts[i] == "";
      }
    }
  }

  /** The same for a converted sentence and its chunk-level lines. */
  lemma ConvertSentenceReadBack(s: Sentence)
    requires SentenceLines(s).Ok?
    requires '\n' !in s.header && '\n' !in s.footer
    requires forall i :: 0 <= i < |SentenceLines(s).value| ==> '\n' !in SentenceLines(s).value[i]
    ensures ConvertSentence(s).Ok?
    ensures Split(ConvertSentence(s).value, '\n') ==
              [QuoteHeader(s.header)] + SentenceLines(s).value + [s.footer, ""]
  {
    SentenceLineCount(s);
    FrameReadBack(s.header, SentenceLines(s).value, s.footer);
  }

  /** A converted sentence has one line per body line plus two per chunk,
      its bracket line and its closing line, and it has at least one chunk. */
  lemma SentenceLineCount(s: Sentence)
    requires SentenceLines(s).Ok?
    ensures SentenceTokens(s).Ok? && Decode(SentenceTokens(s).value).Ok?
    ensures var c := Decode(SentenceTokens(s).value).value.chunks;
              && |c.order| > 0
              && |SentenceLines(s).value| == |Split(s.body, '\n')| + 2 * |c.order|
  {
    var raws := SentenceTokens(s).value;
    assert |raws| == |Split(s.body, '\n')| > 0;
    DecodedLineCount(raws);
  }

  /** The same, stated over the tokens of the body. */
  lemma DecodedLineCount(raws: seq<RawToken>)
    requires raws != [] && Decode(raws).Ok?
    requires var d := Decode(raws).value; EncodeChunks(d.chunks, d.index, |d.chunks.order|).Ok?
    ensures var d := Decode(raws).value;
              && |d.chunks.order| > 0
              && |EncodeChunks(d.chunks, d.index, |d.chunks.order|).value| == |raws| + 2 * |d.chunks.order|
  {
    var ts := DecodeAll(raws).value;
    var d := Decode(raws).value;
    var c := d.chunks;
    assert c == Group(ts);
    assert ts[0].1 in Tags(ts);
    EncodeChunksLength(c, d.index, |c.order|);
    OffsetTotal(c, |c.order|);
    assert c.order[..|c.order|] == c.order;
    GroupKeepsTokens(ts);
  }

  /** An emitted token line is itself a well-formed body line: read back, it
      gives the token's surface form and part of speech and the two features
      it was written with, `af` and `name` (the surface form). This holds when
      the part of speech has no tab and `af` and the surface form have no
      whitespace and no `=`. */
  lemma TokenLineReadBack(i: nat, j: nat, tok: Token)
    requires "af" in tok.feats
    requires '\t' !in tok.pos
    requires forall k :: 0 <= k < |tok.surface| ==> !IsSpace(tok.surface[k]) && tok.surface[k] != '='
    requires forall k :: 0 <= k < |tok.feats["af"]| ==> !IsSpace(tok.feats["af"][k]) && tok.feats["af"][k] != '='
    ensures TokenLine(i, j, tok).Ok?
    ensures ParseLine(TokenLine(i, j, tok).value) ==
              Ok(RawToken(tok.surface, tok.pos, map["af" := tok.feats["af"], "name" := tok.surface]))
  {
    var af, surface := tok.feats["af"], tok.surface;
    TokenLineFields(i, j, tok);
    TokenFeaturesReadBack(af, surface);
  }

  /** The four fields of an emitted token line. */
  lemma TokenLineFields(i: nat, j: nat, tok: Token)
    requires "af" in tok.feats && '\t' !in tok.pos
    requires forall k :: 0 <= k < |tok.surface| ==> !IsSpace(tok.surface[k])
    requires forall k :: 0 <= k < |tok.feats["af"]| ==> !IsSpace(tok.feats["af"][k])
    ensures TokenLine(i, j, tok).Ok?
    ensures Split(TokenLine(i, j, tok).value, '\t') ==
              [TokenAddress(i, j), tok.surface, tok.pos, TokenFeatures(tok.feats["af"], tok.surface)]
  {
    var af, surface := tok.feats["af"], tok.surface;
    NumeralChars(ChunkAddress(i), '\t');
    NumeralChars(NatToString(j + 1), '\t');
    assert '\t' !in surface by {
      assert forall k :: 0 <= k < |surface| ==> surface[k] != '\t';
    }
    assert '\t' !in af by {
      assert forall k :: 0 <= k < |af| ==> af[k] != '\t';
    }
    SplitJoin([TokenAddress(i, j), surface, tok.pos, TokenFeatures(af, surface)], '\t');
  }

  /** The feature block of an emitted token line reads back as `af` and `name`. */
  lemma TokenFeaturesReadBack(af: string, surface: string)
    requires forall k :: 0 <= k < |surface| ==> !IsSpace(surface[k]) && surface[k] != '='
    requires forall k :: 0 <= k < |af| ==> !IsSpace(af[k]) && af[k] != '='
    ensures FeatureDict(Words(FeatureText(TokenFeatures(af, surface)))) ==
              Ok(map["af" := af, "name" := surface])
  {
    var w1, w2 := "af" + "='" + af + "'", "name" + "='" + surface + "'";
    assert w1 == "af='" + af + "'" && w2 == "name='" + surface + "'";
    TokenFeaturesWords(af, surface);
    QuotedFeature("af", af);
    QuotedFeature("name", surface);
    FeatureDictPair(w1, w2);
  }

  /** A feature written as `key='value'` reads back as `(key, value)`. */
  lemma QuotedFeature(key: string, value: string)
    requires '=' !in key
    requires forall k :: 0 <= k < |value| ==> value[k] != '='
    ensures ParseFeature(key + "='" + value + "'") == Ok((key, value))
  {
    assert '=' !in value;
    ParseQuotedFeature(key, value, '\'');
    assert key + "=" + ['\''] + value + ['\''] == key + "='" + value + "'";
  }

  lemma TokenFeaturesWords(af: string, surface: string)
    requires forall k :: 0 <= k < |surface| ==> !IsSpace(surface[k])
    requires forall k :: 0 <= k < |af| ==> !IsSpace(af[k])
    ensures Words(FeatureText(TokenFeatures(af, surface))) == ["af='" + af + "'", "name='" + surface + "'"]
  {
    var w1, w2 := "af='" + af + "'", "name='" + surface + "'";
    assert FeatureText(TokenFeatures(af, surface)) == Join([w1, w2], ' ') by {
      assert TokenFeatures(af, surface) == "<fs " + (w1 + " " + w2) + ">";
      InnerOf("<fs ", w1 + " " + w2, '>');
      assert [w1, w2][1..] == [w2];
    }
    assert IsWord(w1) && IsWord(w2);
    WordsJoin([w1, w2]);
  }

  lemma FeatureDictPair(f1: string, f2: string)
    requires ParseFeature(f1).Ok? && ParseFeature(f2).Ok?
    ensures FeatureDict([f1, f2]) ==
              Ok(map[ParseFeature(f1).value.0 := ParseFeature(f1).value.1,
                     ParseFeature(f2).value.0 := ParseFeature(f2).value.1])
  {
    var fs := [f1, f2];
    assert fs[..0] == [] && fs[..1] == [f1] && fs[..2] == fs;
    BuildMapStep(ParseFeature, fs, 0);
    BuildMapStep(ParseFeature, fs, 1);
  }

  /** All sentences converted in order; the first failing sentence aborts the
      whole run. */
  function ConvertAll(ss: seq<Sentence>): (r: Result<seq<string>>)
    ensures r.Ok? ==> |r.value| == |ss|
  {
    MapAll(ConvertSentence, ss)
  }

  /** One output per sentence, in input order. */
  lemma ConvertAllInOrder(ss: seq<Sentence>, i: nat)
    requires ConvertAll(ss).Ok? && i < |ss|
    ensures ConvertSentence(ss[i]) == Ok(ConvertAll(ss).value[i])
  {
    MapAllInOrder(ConvertSentence, ss, i);
  }

  /** The run succeeds exactly when every sentence converts, and otherwise
      fails with the failure of the first sentence that does not. */
  lemma ConvertAllFails(ss: seq<Sentence>, i: nat)
    requires i < |ss| && ConvertSentence(ss[i]).Err?
    requires forall j :: 0 <= j < i ==> ConvertSentence(ss[j]).Ok?
    ensures ConvertAll(ss) == Err(ConvertSentence(ss[i]).error)
  {
    MapAllFirstError(ConvertSentence, ss, i);
  }

  /** The inner loop of `convert_into_interchunk_ssf_for_sentences`: every
      body line is unpacked into its four fields and its feature block is
      read into a dictionary. */
  method ReadTokens(body: string) returns (r: Result<seq<RawToken>>)
    ensures r == ParseLines(Split(body, '\n'))
  {
    var lines := Split(body, '\n');
    var raws: seq<RawToken> := [];
    for i := 0 to |lines|
      invariant ParseLines(lines[..i]) == Ok(raws)
    {
      var fields := Split(lines[i], '\t');
      if |fields| != 4 {
        assert ParseLines(lines) == Err(MalformedLine(lines[i])) by {
          ParseLineMeaning(lines[i]);
          MapAllFailAt(ParseLine, lines, i, raws);
        }
        return Err(MalformedLine(lines[i]));
      }
      var addr, token, pos, morph := fields[0], fields[1], fields[2], fields[3];
      var morphDict := CreateMorphDict(Inner(morph, 4));
      if morphDict.Err? {
        assert ParseLines(lines) == Err(morphDict.error) by {
          assert ParseLine(lines[i]) == Err(morphDict.error);
          MapAllFailAt(ParseLine, lines, i, raws);
        }
        return Err(morphDict.error);
      }
      assert ParseLines(lines[..i + 1]) == Ok(raws + [RawToken(token, pos, morphDict.value)]) by {
        assert ParseLine(lines[i]) == Ok(RawToken(token, pos, morphDict.value));
        MapAllStep(ParseLine, lines, i);
      }
      raws := raws + [RawToken(token, pos, morphDict.value)];
    }
    assert lines[..|lines|] == lines;
    return Ok(raws);
  }

  /** `convert_into_interchunk_ssf_for_sentences`: for every sentence, read
      its body line by line, decode the chunks, encode them, and append the
      sentence text framed by its quote-rewritten header and its footer. */
  method ConvertSentences(ss: seq<Sentence>) returns (r: Result<seq<string>>)
    ensures r == ConvertAll(ss)
  {
    var out: seq<string> := [];
    for k := 0 to |ss|
      invariant ConvertAll(ss[..k]) == Ok(out)
    {
      var header, sentence, footer := ss[k].header, ss[k].body, ss[k].footer;
      var raws := ReadTokens(sentence);
      if raws.Err? {
        assert ConvertAll(ss) == Err(raws.error) by {
          assert ConvertSentence(ss[k]) == Err(raws.error);
          MapAllFailAt(ConvertSentence, ss, k, out);
        }
        return Err(raws.error);
      }
      var decoded := FindChunks(raws.value);
      if decoded.Err? {
        assert ConvertAll(ss) == Err(decoded.error) by {
          assert ConvertSentence(ss[k]) == Err(decoded.error);
          MapAllFailAt(ConvertSentence, ss, k, out);
        }
        return Err(decoded.error);
      }
      var text := Encode(decoded.value.chunks, decoded.value.index);
      if text.Err? {
        assert ConvertAll(ss) == Err(text.error) by {
          assert ConvertSentence(ss[k]) == Err(text.error);
          MapAllFailAt(ConvertSentence, ss, k, out);
        }
        return Err(text.error);
      }
      header := Replace(header, '"', '\'');
      var framed := Join([header, text.value, footer], '\n');
      assert ConvertAll(ss[..k + 1]) == Ok(out + [framed + "\n"]) by {
        assert ConvertSentence(ss[k]) == Ok(framed + "\n");
        MapAllStep(ConvertSentence, ss, k);
      }
      out := out + [framed + "\n"];
    }
    assert ss[..|ss|] == ss;
    return Ok(out);
  }
}
