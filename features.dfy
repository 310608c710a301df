/** The feature block of one token, `af='…' chunkType='…' name='…'`, read into
    a dictionary (`create_morph_dict_for_token`). */
module Features {
  import opened Results
  import opened Text

  type FeatureMap = map<string, string>

  /** One whitespace-free feature `key=value`: the key and the value with its
      first and last characters (the quotes) cut off. Any count of `=` other
      than one is the `ValueError` of the two-name unpacking. */
  function ParseFeature(feature: string): (r: Result<(string, string)>)
    ensures r.Ok? <==> Count(feature, '=') == 1
    ensures r.Err? ==> r.error == MalformedFeature(feature)
    ensures r.Ok? ==> var k := |r.value.0|;
      && k < |feature| && feature[k] == '=' && feature[..k] == r.value.0
      && r.value.1 == Inner(feature[k + 1..], 1)
  {
    match SplitOnce(feature, '=')
    case None => Err(MalformedFeature(feature))
    case Some((key, value)) =>
      assert feature[..|key|] == key && feature[|key| + 1..] == value;
      Ok((key, Inner(value, 1)))
  }

  /** A quoted feature is read back as its key and its unquoted value. */
  lemma ParseQuotedFeature(key: string, value: string, q: char)
    requires '=' !in key && '=' !in value && q != '='
    ensures ParseFeature(key + "=" + [q] + value + [q]) == Ok((key, value))
  {
    var v := [q] + value + [q];
    assert key + "=" + [q] + value + [q] == key + ['='] + v;
    assert '=' !in v;
    SplitOnceOf(key, '=', v);
    InnerOf([q], value, q);
  }

  /** The dictionary the loop of `create_morph_dict_for_token` builds from the
      features `fs`, one feature after the other; the first malformed feature
      aborts it. */
  function FeatureDict(fs: seq<string>): Result<FeatureMap> {
    BuildMap(ParseFeature, fs)
  }

  /** The dictionary is built exactly when every feature holds one `=`. */
  lemma {:induction false} FeatureDictSucceeds(fs: seq<string>)
    ensures FeatureDict(fs).Ok? <==> forall i :: 0 <= i < |fs| ==> Count(fs[i], '=') == 1
  {
    BuildMapSucceeds(ParseFeature, fs);
  }

  /** Otherwise the first malformed feature is the one reported. */
  lemma {:induction false} FeatureDictFirstError(fs: seq<string>, i: nat)
    requires i < |fs| && Count(fs[i], '=') != 1
    requires forall j :: 0 <= j < i ==> Count(fs[j], '=') == 1
    ensures FeatureDict(fs) == Err(MalformedFeature(fs[i]))
  {
    BuildMapFirstError(ParseFeature, fs, i);
  }

  /** `SetsKey(f, k)`: feature text `f` is well formed and its key is `k`. */
  ghost predicate SetsKey(feature: string, key: string) {
    ParseFeature(feature).Ok? && ParseFeature(feature).value.0 == key
  }

  /** A key is in the dictionary exactly when some feature sets it. */
  lemma {:induction false} FeatureDictKeys(fs: seq<string>, key: string)
    requires FeatureDict(fs).Ok?
    ensures key in FeatureDict(fs).value <==> exists i :: 0 <= i < |fs| && SetsKey(fs[i], key)
  {
    BuildMapKeys(ParseFeature, fs, key);
  }

  /** The last feature that sets a key decides its value: a later duplicate
      overwrites an earlier one. */
  lemma {:induction false} FeatureDictLastWins(fs: seq<string>, i: nat, key: string, value: string)
    requires FeatureDict(fs).Ok?
    requires i < |fs| && ParseFeature(fs[i]) == Ok((key, value))
    requires forall j :: i < j < |fs| ==> !SetsKey(fs[j], key)
    ensures key in FeatureDict(fs).value && FeatureDict(fs).value[key] == value
  {
    BuildMapLastWins(ParseFeature, fs, i, key, value);
  }

  /** `create_morph_dict_for_token`: split the feature text on whitespace and
      record every `key=value` feature, value unquoted. The collapse of
      whitespace runs that precedes the split does not change the split. */
  method CreateMorphDict(morphText: string) returns (r: Result<FeatureMap>)
    ensures r == FeatureDict(Words(morphText))
  {
    var features := Words(morphText);
    var dict: FeatureMap := map[];
    var i := 0;
    while i < |features|
      invariant 0 <= i <= |features|
      invariant FeatureDict(features[..i]) == Ok(dict)
    {
      var feature := features[i];
      var parts := SplitOnce(feature, '=');
      if parts.None? {
        assert FeatureDict(features) == Err(MalformedFeature(feature)) by {
          BuildMapSucceeds(ParseFeature, features[..i]);
          assert forall j :: 0 <= j < i ==> features[..i][j] == features[j];
          BuildMapFirstError(ParseFeature, features, i);
        }
        return Err(MalformedFeature(feature));
      }
      var (feat, val) := parts.value;
      assert FeatureDict(features[..i + 1]) == Ok(dict[feat := Inner(val, 1)]) by {
        assert ParseFeature(feature) == Ok((feat, Inner(val, 1)));
        BuildMapStep(ParseFeature, features, i);
      }
      dict := dict[feat := Inner(val, 1)];
      i := i + 1;
    }
    assert features[..i] == features;
    return Ok(dict);
  }
}
