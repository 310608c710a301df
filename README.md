# Intra-chunk to inter-chunk SSF conversion, in Dafny

This project models the converter `convert_intra_chunk_dependencies_into_inter_chunk.py`.
The converter rewrites sentences in Shakti Standard Format (SSF) from the
intra-chunk form to the inter-chunk form.

In the intra-chunk form every body line is one token:
`address TAB surface TAB pos TAB <fs …>`. Its feature block carries `af`,
`chunkType='head:NP1'` or `'child:NP1'`, an optional `name` and, on head
tokens, an optional `drel='label:target'`.

The converter works in four steps:

1. It reads each feature block into a dictionary (module `Features`).
2. It gives every token a `name` (the surface form by default) and a head
   flag. It indexes head tokens by name and groups the tokens by chunk tag,
   in order of first appearance (module `Decoder`).
3. It writes each chunk as an SSF bracket (module `Encoder`):
   - a line `i TAB (( TAB LABEL TAB <fs drel='label:TAG' name='TAG'>`;
   - one line `i.j TAB surface TAB pos TAB <fs af='…' name='surface'>` per token;
   - a closing line `TAB ))`.

   The chunk's `drel` is lifted from its last head token that has one. The
   target is resolved to a chunk tag through the head index. `LABEL` is the
   first run of upper-case letters of the tag.
4. It frames each sentence by its header, with `"` rewritten to `'`, and its
   footer (module `Converter`).

Every operation is a function over values. The loops of the source are
methods proved equal to those functions:
- `Features.CreateMorphDict`;
- `Decoder.FindChunks`;
- `Encoder.Encode`;
- `Converter.ReadTokens`;
- `Converter.ConvertSentences`.

The lemmas state what the functions mean: parsing, grouping, addressing,
relation lifting, layout and framing.

Python's exceptions are modelled as a `Result` whose `Error` names the
failure:
- `MalformedFeature`: a feature without exactly one `=` (ValueError).
- `MissingFeature`: a missing `chunkType` or `af` (KeyError).
- `MalformedChunkType` and `MalformedRelation`: a `chunkType` or `drel`
  without exactly one `:` (ValueError).
- `DanglingRelation`: a `drel` target that heads no chunk (KeyError).
- `NoChunkLabel`: a chunk tag with no upper-case letter (the failed regular
  expression search).
- `MalformedLine`: a body line that is not four tab-separated fields
  (ValueError).

The first failure aborts the whole run, as the uncaught exception does.

Python's string operations are modelled in module `Text`:
- `split(sep)`, `join`, `split()`, `replace`, `str(n)`;
- the slice `s[k:-1]`;
- group 1 of `search('([A-Z]+)\d*', …)`.

Files: `results.dfy`, `text.dfy`, `features.dfy`, `decoder.dfy`,
`encoder.dfy`, `converter.dfy`.

## Model

| member | source | states |
|---|---|---|
| Features.ParseFeature | convert_intra_chunk_dependencies_into_inter_chunk.py:35-36 | a feature parses exactly when it holds one `=`, else `MalformedFeature`; the key is the text before `=`, the value the text after it without its first and last character |
| Features.ParseQuotedFeature | convert_intra_chunk_dependencies_into_inter_chunk.py:35-36 | `key='value'` (no `=` inside) reads back as exactly `(key, value)` |
| Features.FeatureDictSucceeds | convert_intra_chunk_dependencies_into_inter_chunk.py:33-36 | the dictionary is built iff every whitespace-separated feature holds exactly one `=` |
| Features.FeatureDictFirstError | convert_intra_chunk_dependencies_into_inter_chunk.py:34-35 | otherwise the error names the first malformed feature |
| Features.FeatureDictKeys | convert_intra_chunk_dependencies_into_inter_chunk.py:34-36 | a key is in the dictionary iff some feature sets it |
| Features.FeatureDictLastWins | convert_intra_chunk_dependencies_into_inter_chunk.py:34-36 | of duplicate keys, the last feature's value is the one kept |
| Features.CreateMorphDict | convert_intra_chunk_dependencies_into_inter_chunk.py:29-37 | the loop returns exactly the dictionary (or first error) of the feature fold over the whitespace-separated words |
| Text.Words | convert_intra_chunk_dependencies_into_inter_chunk.py:33 | splitting on whitespace gives non-empty whitespace-free words |
| Text.WordsJoin | convert_intra_chunk_dependencies_into_inter_chunk.py:33 | words joined by single spaces split back into the same words |
| Text.WordsOfWord | convert_intra_chunk_dependencies_into_inter_chunk.py:33 | a word followed by nothing or by whitespace is the first word, the rest split on its own |
| Text.WordsAtSpace | convert_intra_chunk_dependencies_into_inter_chunk.py:33 | a whitespace character separates: the words of the text before it, then those after it; with `WordsOfWord` this fixes the words of every string, including leading, trailing and repeated whitespace |
| Text.WordsSkipSpace | convert_intra_chunk_dependencies_into_inter_chunk.py:33 | leading whitespace yields no word |
| Text.WordsCollapse | convert_intra_chunk_dependencies_into_inter_chunk.py:32-33 | a run of two or more whitespace characters splits like a single space, so the collapse before `split()` does not change the words |
| Text.SplitOnce | convert_intra_chunk_dependencies_into_inter_chunk.py:35 | the two-name unpacking of `split(sep)` succeeds iff `sep` occurs once, and then the string is `left + sep + right` with neither side holding `sep` |
| Text.SplitJoin | convert_intra_chunk_dependencies_into_inter_chunk.py:75 | splitting a join of separator-free fields gives the fields back |
| Text.JoinSplit | convert_intra_chunk_dependencies_into_inter_chunk.py:100 | joining the fields of a split gives the string back |
| Text.ParseNatToString | convert_intra_chunk_dependencies_into_inter_chunk.py:68 | the numeral `str(n)` reads back as `n`, so distinct positions get distinct addresses |
| Text.UpperRun | convert_intra_chunk_dependencies_into_inter_chunk.py:86 | the search fails iff the tag has no upper-case letter; otherwise the label is the maximal `[A-Z]` run at the first upper-case letter |
| Text.UpperRunUnique | convert_intra_chunk_dependencies_into_inter_chunk.py:86 | that description determines the label uniquely |
| Text.UpperRunOfTag | convert_intra_chunk_dependencies_into_inter_chunk.py:86 | a tag of letters then digits (`NP1`, `VGF12`) yields its letters, the numeral dropped |
| Decoder.WithName | convert_intra_chunk_dependencies_into_inter_chunk.py:47-51 | `name` is always present afterwards, equal to the given `name` or else the surface form; every other key is unchanged |
| Decoder.ChunkRole | convert_intra_chunk_dependencies_into_inter_chunk.py:53-54 | a missing `chunkType` is `MissingFeature`; it splits iff it holds one `:`, else `MalformedChunkType`; `chunkType == role + ":" + tag` |
| Decoder.DecodeTokenMeaning | convert_intra_chunk_dependencies_into_inter_chunk.py:47-58 | a token decodes iff `chunkType` is present with one `:`; surface and pos are kept, the name defaulted, and the token is a head iff its role is not `child` |
| Decoder.FirstOccurrences | convert_intra_chunk_dependencies_into_inter_chunk.py:60 | the chunk tags are distinct and are exactly the tags that occur |
| Decoder.FirstOccurrencesOrdered | convert_intra_chunk_dependencies_into_inter_chunk.py:60 | chunks are ordered by the first appearance of their tags |
| Decoder.FilterMembers | convert_intra_chunk_dependencies_into_inter_chunk.py:60 | a token is in the list of chunk `tag` iff it was read with that tag |
| Decoder.Group | convert_intra_chunk_dependencies_into_inter_chunk.py:44-60 | the ordered dictionary is well formed: distinct tags, exactly the keys of the lists |
| Decoder.GroupKeepsTokens | convert_intra_chunk_dependencies_into_inter_chunk.py:45-60 | the lengths of the chunk lists add up to the number of tokens |
| Decoder.HeadIndexKeys | convert_intra_chunk_dependencies_into_inter_chunk.py:55-59 | a name is in the head index iff some head token carries it |
| Decoder.HeadIndexLastWins | convert_intra_chunk_dependencies_into_inter_chunk.py:59 | the last head token with a name decides that name's chunk tag |
| Decoder.Decode | convert_intra_chunk_dependencies_into_inter_chunk.py:40-61 | a successful decode yields a well-formed ordered dictionary |
| Decoder.FindChunks | convert_intra_chunk_dependencies_into_inter_chunk.py:40-61 | the single-pass loop (setdefault/append, head index writes) returns exactly the declarative grouping and head index, or the first token's error |
| Encoder.TokenAddressReadBack | convert_intra_chunk_dependencies_into_inter_chunk.py:68-73 | the address `i.j` splits at its one `.` into the chunk numeral and the token numeral, which read back as the 1-based positions |
| Encoder.TokenLine | convert_intra_chunk_dependencies_into_inter_chunk.py:73-75 | a token line is produced iff the token has `af`, else `MissingFeature("af")` |
| Encoder.Resolve | convert_intra_chunk_dependencies_into_inter_chunk.py:78-81 | a `drel` without exactly one `:` is `MalformedRelation`; a resolved relation is non-empty |
| Encoder.ResolveMeaning | convert_intra_chunk_dependencies_into_inter_chunk.py:79-81 | `label:target` becomes `label:` plus the tag of the chunk `target` heads; a target that heads no chunk is `DanglingRelation(target)` |
| Encoder.ScanTokensSucceeds | convert_intra_chunk_dependencies_into_inter_chunk.py:72-81 | the token loop of a chunk succeeds iff every token has `af` and every relating head token's `drel` resolves |
| Encoder.ScanTokensLines | convert_intra_chunk_dependencies_into_inter_chunk.py:72-76 | the `j`-th token line is that token's line at address `i+1.j+1` |
| Encoder.ScanTokensNoRelation | convert_intra_chunk_dependencies_into_inter_chunk.py:71-81 | the chunk gets no relation iff no head token carries `drel` |
| Encoder.ScanTokensLastRelation | convert_intra_chunk_dependencies_into_inter_chunk.py:77-81 | otherwise the last head token with `drel` decides the chunk relation |
| Encoder.ChunkBlock | convert_intra_chunk_dependencies_into_inter_chunk.py:82-88 | a chunk takes its token count plus two lines and ends with the closing line |
| Encoder.ChunkBlockSucceeds | convert_intra_chunk_dependencies_into_inter_chunk.py:72-88 | a chunk is written iff all its tokens are encodable and its tag has an upper-case letter |
| Encoder.ChunkBlockLayout | convert_intra_chunk_dependencies_into_inter_chunk.py:82-88 | a written chunk has an encodable token loop and a label; its first line is the bracket line with label and relation, then the token lines in order |
| Encoder.EncodeChunksSucceeds | convert_intra_chunk_dependencies_into_inter_chunk.py:67-88 | the sentence encodes iff every chunk does |
| Encoder.EncodeChunksBlock | convert_intra_chunk_dependencies_into_inter_chunk.py:67-88 | chunk `p`'s block sits at lines `Offset(p)` to `Offset(p+1)-1`, chunks in dictionary order |
| Encoder.OffsetTotal | convert_intra_chunk_dependencies_into_inter_chunk.py:88 | the first `n` chunks take the lines of their tokens plus two each |
| Encoder.EncodeLayout | convert_intra_chunk_dependencies_into_inter_chunk.py:67-88 | chunk `p` takes `k + 2` lines, and line `Offset(p) + 1 + j` is the line of token `j` of chunk `p` |
| Encoder.EncodeBrackets | convert_intra_chunk_dependencies_into_inter_chunk.py:82-88 | line `Offset(p)` is chunk `p`'s bracket line, with the label of its tag and its lifted relation, and line `Offset(p) + k + 1` is its closing line `\t))` |
| Encoder.Encode | convert_intra_chunk_dependencies_into_inter_chunk.py:64-90 | the nested loops return exactly the specified chunk lines joined by newlines, or the first failure |
| Converter.FeatureText | convert_intra_chunk_dependencies_into_inter_chunk.py:101 | the slice `[4:-1]` is what lies between the first four and the last character, empty for a short field |
| Converter.ParseLineMeaning | convert_intra_chunk_dependencies_into_inter_chunk.py:100-102 | a line without exactly three tabs is `MalformedLine`; otherwise it parses iff its feature block does; surface and pos are fields two and three and the line is the join of its fields |
| Converter.ParseLines | convert_intra_chunk_dependencies_into_inter_chunk.py:97-102 | one token per body line |
| Converter.QuoteHeader | convert_intra_chunk_dependencies_into_inter_chunk.py:105 | same length, no `"` left, every `"` replaced by `'` and every other character in place |
| Converter.QuoteHeaderKeeps | convert_intra_chunk_dependencies_into_inter_chunk.py:105 | any character other than the two quotes occurs in the rewritten header iff it occurs in the header |
| Converter.MalformedLineFails | convert_intra_chunk_dependencies_into_inter_chunk.py:97-100 | the first body line that is not four fields fails the sentence with `MalformedLine` naming that line |
| Converter.SentenceLineCount | convert_intra_chunk_dependencies_into_inter_chunk.py:97-104 | a converted sentence has at least one chunk and exactly one line per body line plus two per chunk |
| Converter.FrameLines | convert_intra_chunk_dependencies_into_inter_chunk.py:106-107 | the framed text is header, chunk lines and footer joined by newlines, with a final newline |
| Converter.FrameReadBack | convert_intra_chunk_dependencies_into_inter_chunk.py:105-107 | splitting the framed text at newlines gives the rewritten header, the chunk lines in order, the footer and the empty field after the final newline |
| Converter.ConvertSentenceReadBack | convert_intra_chunk_dependencies_into_inter_chunk.py:103-107 | the same for a converted sentence and its chunk lines |
| Converter.TokenLineReadBack | convert_intra_chunk_dependencies_into_inter_chunk.py:74-75 | an emitted token line is itself a well-formed body line that reads back as the token's surface, pos and the features `af` and `name` |
| Converter.ConvertAll | convert_intra_chunk_dependencies_into_inter_chunk.py:95-108 | one output per sentence |
| Converter.ConvertAllInOrder | convert_intra_chunk_dependencies_into_inter_chunk.py:95-108 | output `i` is the conversion of sentence `i` |
| Converter.ConvertAllFails | convert_intra_chunk_dependencies_into_inter_chunk.py:96-107 | the run fails with the error of the first sentence that fails |
| Converter.ReadTokens | convert_intra_chunk_dependencies_into_inter_chunk.py:97-102 | the line loop returns exactly the specified token list, or the first line's error |
| Converter.ConvertSentences | convert_intra_chunk_dependencies_into_inter_chunk.py:93-108 | the sentence loop returns exactly the specified outputs, or the first sentence's error |

## Left out

- `main`, argument parsing and the directory walk (lines 111-136) are process plumbing around the conversion.
- File reading and writing (lines 11-20) are I/O. This includes the `strip()` of the input text and the final `'\n'.join` of the outputs.
- `find_ssf_sentences_from_text` (lines 23-26) is a regular-expression search over the raw text. The model takes the sentences already cut into header, body and footer.
- The whitespace collapse before the split (line 32) is not computed: `Text.WordsCollapse` proves that collapsing a whitespace run does not change the result of `split()`, so both steps together are `Text.Words`.
- The unused `token_in_wx` at line 80 and the commented-out `wx_utf_dict` lines have no effect and are not modelled.
- The token dictionaries are mutated in place, and Python shares them between the token list and the chunk lists. The model uses values: `name` is written into the features, and the `head` entry is a boolean field of `Token`. Nothing reads a dictionary after it is mutated other than through these values.
- Python's exception types and messages are not modelled. Each kind of failure is a distinct `Error` constructor.
- `Text.IsSpace` lists Python's whitespace characters for `str.split()` explicitly. Unicode categories beyond that list are not modelled.
- Converter.FrameReadBack: assumes the header, the footer and the chunk lines hold no newline, because only then does splitting at newlines give the lines back.
- Converter.ConvertSentenceReadBack: assumes the header, the footer and the chunk lines hold no newline. The chunk lines are built from pieces of newline-split body lines, so they hold none, but the model does not prove it.
- Converter.TokenLineReadBack: assumes the surface form and `af` hold no whitespace and no `=`, and the part of speech no tab. Any of these would make the line read back differently.
