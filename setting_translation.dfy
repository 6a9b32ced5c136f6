// Translation between setting names and the platform's codes
// (src/com/android/camera/util/SettingTranslation.java): three two-way tables,
// each filled once by a run of `put` calls.
module SettingTranslation {
  import opened Bytes

  const NOT_FOUND: int := -1

  // MediaRecorder.VideoEncoder, MediaRecorder.AudioEncoder and the
  // CameraMetadata noise-reduction modes of the Android platform.
  const VIDEO_DEFAULT: int := 0
  const VIDEO_H263: int := 1
  const VIDEO_H264: int := 2
  const VIDEO_MPEG_4_SP: int := 3
  const VIDEO_VP8: int := 4
  const VIDEO_HEVC: int := 5

  const AUDIO_DEFAULT: int := 0
  const AUDIO_AMR_NB: int := 1
  const AUDIO_AMR_WB: int := 2
  const AUDIO_AAC: int := 3
  const AUDIO_HE_AAC: int := 4
  const AUDIO_AAC_ELD: int := 5
  const AUDIO_VORBIS: int := 6

  const NOISE_REDUCTION_MODE_OFF: int := 0
  const NOISE_REDUCTION_MODE_FAST: int := 1
  const NOISE_REDUCTION_MODE_HIGH_QUALITY: int := 2
  const NOISE_REDUCTION_MODE_MINIMAL: int := 3
  const NOISE_REDUCTION_MODE_ZERO_SHUTTER_LAG: int := 4

  /** The name-to-code map a run of puts leaves: a later put of a name wins. */
  function Forward(ps: seq<(string, int)>): (m: map<string, int>)
    ensures forall i :: 0 <= i < |ps| ==> ps[i].0 in m
    decreases |ps|
  {
    if ps == [] then map[] else Forward(ps[..|ps| - 1])[ps[|ps| - 1].0 := ps[|ps| - 1].1]
  }

  /** The code-to-name map a run of puts leaves: a later put of a code wins. */
  function Backward(ps: seq<(string, int)>): (m: map<int, string>)
    ensures forall i :: 0 <= i < |ps| ==> ps[i].1 in m
    decreases |ps|
  {
    if ps == [] then map[] else Backward(ps[..|ps| - 1])[ps[|ps| - 1].1 := ps[|ps| - 1].0]
  }

  /** Only names and codes that were put are in the maps. */
  lemma {:induction false} OnlyPut(ps: seq<(string, int)>)
    ensures forall k :: k in Forward(ps) ==> exists i :: 0 <= i < |ps| && ps[i].0 == k
    ensures forall v :: v in Backward(ps) ==> exists i :: 0 <= i < |ps| && ps[i].1 == v
    decreases |ps|
  {
    if ps != [] {
      var init := ps[..|ps| - 1];
      OnlyPut(init);
      forall k | k in Forward(ps)
        ensures exists i :: 0 <= i < |ps| && ps[i].0 == k
      {
        if k != ps[|ps| - 1].0 {
          assert Forward(ps) == Forward(init)[ps[|ps| - 1].0 := ps[|ps| - 1].1];
          var i :| 0 <= i < |init| && init[i].0 == k;
          assert ps[i] == init[i];
        }
      }
      forall v | v in Backward(ps)
        ensures exists i :: 0 <= i < |ps| && ps[i].1 == v
      {
        if v != ps[|ps| - 1].1 {
          assert Backward(ps) == Backward(init)[ps[|ps| - 1].1 := ps[|ps| - 1].0];
          var i :| 0 <= i < |init| && init[i].1 == v;
          assert ps[i] == init[i];
        }
      }
    }
  }

  /** No name and no code is put twice. */
  predicate OneToOne(ps: seq<(string, int)>) {
    forall i, j :: 0 <= i < j < |ps| ==> ps[i].0 != ps[j].0 && ps[i].1 != ps[j].1
  }

  /** In a one-to-one run of puts every pair is found both ways. */
  lemma {:induction false} OneToOneFound(ps: seq<(string, int)>)
    requires OneToOne(ps)
    ensures forall i :: 0 <= i < |ps| ==> Forward(ps)[ps[i].0] == ps[i].1 && Backward(ps)[ps[i].1] == ps[i].0
    decreases |ps|
  {
    if ps != [] {
      var init := ps[..|ps| - 1];
      assert OneToOne(init);
      OneToOneFound(init);
      forall i | 0 <= i < |ps|
        ensures Forward(ps)[ps[i].0] == ps[i].1 && Backward(ps)[ps[i].1] == ps[i].0
      {
        if i < |ps| - 1 {
          assert init[i] == ps[i];
        }
      }
    }
  }

  /** In a one-to-one table a name's code leads back to the name, and a code's name back to the code. */
  lemma OneToOneRoundTrip(ps: seq<(string, int)>)
    requires OneToOne(ps)
    ensures forall k :: k in Forward(ps) ==> Forward(ps)[k] in Backward(ps) && Backward(ps)[Forward(ps)[k]] == k
    ensures forall v :: v in Backward(ps) ==> Backward(ps)[v] in Forward(ps) && Forward(ps)[Backward(ps)[v]] == v
  {
    OneToOneFound(ps);
    OnlyPut(ps);
    forall k | k in Forward(ps)
      ensures Forward(ps)[k] in Backward(ps) && Backward(ps)[Forward(ps)[k]] == k
    {
      var i :| 0 <= i < |ps| && ps[i].0 == k;
    }
    forall v | v in Backward(ps)
      ensures Backward(ps)[v] in Forward(ps) && Forward(ps)[Backward(ps)[v]] == v
    {
      var i :| 0 <= i < |ps| && ps[i].1 == v;
    }
  }

  /** `TwoWayMap`: a name-to-code map and a code-to-name map, filled together. */
  class TwoWayMap {
    var strToInt: map<string, int>
    var intToStr: map<int, string>

    constructor ()
      ensures strToInt == map[] && intToStr == map[]
    {
      strToInt, intToStr := map[], map[];
    }

    /** `put`: both directions are set; an older entry under the same name or code is replaced. */
    method Put(key: string, value: int)
      modifies this
      ensures strToInt == old(strToInt)[key := value]
      ensures intToStr == old(intToStr)[value := key]
      ensures Get(key) == value && GetName(value) == Some(key)
    {
      strToInt := strToInt[key := value];
      intToStr := intToStr[value := key];
    }

    /** `get(String)`: the code, or NOT_FOUND for an unknown name. */
    function Get(key: string): (r: int)
      reads this
      ensures key in strToInt ==> r == strToInt[key]
      ensures key !in strToInt ==> r == NOT_FOUND
    {
      if key in strToInt then strToInt[key] else NOT_FOUND
    }

    /** `get(int)`: the name, or null (None) for an unknown code. */
    function GetName(key: int): (r: Option<string>)
      reads this
      ensures r.Some? <==> key in intToStr
      ensures r.Some? ==> r.value == intToStr[key]
    {
      if key in intToStr then Some(intToStr[key]) else None
    }

    /** A run of puts, one per table row in row order: the maps are those the run leaves. */
    method PutAll(ps: seq<(string, int)>)
      requires strToInt == map[] && intToStr == map[]
      modifies this
      ensures strToInt == Forward(ps) && intToStr == Backward(ps)
    {
      for k := 0 to |ps|
        invariant strToInt == Forward(ps[..k]) && intToStr == Backward(ps[..k])
      {
        Put(ps[k].0, ps[k].1);
        assert ps[..k + 1][..k] == ps[..k];
      }
      assert ps[..|ps|] == ps;
    }
  }

  /**
   * The code of "h265": the platform's `HEVC` field when it exists and is
   * not DEFAULT, otherwise its `H265` field, otherwise DEFAULT
   * (`ApiHelper.getIntFieldIfExists` with DEFAULT as the fallback).
   */
  function H265Code(hevcField: Option<int>, h265Field: Option<int>): (c: int)
    ensures hevcField.Some? && hevcField.value != VIDEO_DEFAULT ==> c == hevcField.value
    ensures (hevcField.None? || hevcField.value == VIDEO_DEFAULT) && h265Field.Some? ==> c == h265Field.value
    ensures (hevcField.None? || hevcField.value == VIDEO_DEFAULT) && h265Field.None? ==> c == VIDEO_DEFAULT
  {
    var h := if hevcField.Some? then hevcField.value else VIDEO_DEFAULT;
    if h == VIDEO_DEFAULT then (if h265Field.Some? then h265Field.value else VIDEO_DEFAULT) else h
  }

  function VideoPairs(h265: int): seq<(string, int)> {
    [("default", VIDEO_DEFAULT), ("h263", VIDEO_H263), ("h264", VIDEO_H264), ("h265", h265),
     ("mpeg-4-sp", VIDEO_MPEG_4_SP), ("vp8", VIDEO_VP8)]
  }

  function AudioPairs(): seq<(string, int)> {
    [("aac", AUDIO_AAC), ("aac-eld", AUDIO_AAC_ELD), ("amr-nb", AUDIO_AMR_NB), ("amr-wb", AUDIO_AMR_WB),
     ("default", AUDIO_DEFAULT), ("he-aac", AUDIO_HE_AAC), ("vorbis", AUDIO_VORBIS)]
  }

  function NoisePairs(): seq<(string, int)> {
    [("off", NOISE_REDUCTION_MODE_OFF), ("fast", NOISE_REDUCTION_MODE_FAST),
     ("high-quality", NOISE_REDUCTION_MODE_HIGH_QUALITY), ("minimal", NOISE_REDUCTION_MODE_MINIMAL),
     ("zero-shutter-lag", NOISE_REDUCTION_MODE_ZERO_SHUTTER_LAG)]
  }

  /** The video-encoder table, filled in the static initialiser's order. */
  method VideoEncoderTable(hevcField: Option<int>, h265Field: Option<int>) returns (t: TwoWayMap)
    ensures fresh(t)
    ensures t.strToInt == Forward(VideoPairs(H265Code(hevcField, h265Field)))
    ensures t.intToStr == Backward(VideoPairs(H265Code(hevcField, h265Field)))
  {
    var h265 := if hevcField.Some? then hevcField.value else VIDEO_DEFAULT;
    if h265 == VIDEO_DEFAULT {
      h265 := if h265Field.Some? then h265Field.value else VIDEO_DEFAULT;
    }
    var ps := VideoPairs(h265);
    t := new TwoWayMap();
    t.PutAll(ps);
  }

  /** The audio-encoder table. */
  method AudioEncoderTable() returns (t: TwoWayMap)
    ensures fresh(t)
    ensures t.strToInt == Forward(AudioPairs()) && t.intToStr == Backward(AudioPairs())
  {
    var ps := AudioPairs();
    t := new TwoWayMap();
    t.PutAll(ps);
  }

  /** The noise-reduction table. */
  method NoiseReductionTable() returns (t: TwoWayMap)
    ensures fresh(t)
    ensures t.strToInt == Forward(NoisePairs()) && t.intToStr == Backward(NoisePairs())
  {
    var ps := NoisePairs();
    t := new TwoWayMap();
    t.PutAll(ps);
  }

  /** What `get(String)` answers on the table a run of puts leaves. */
  function Lookup(ps: seq<(string, int)>, key: string): int {
    if key in Forward(ps) then Forward(ps)[key] else NOT_FOUND
  }

  /** What `get(int)` answers on the table a run of puts leaves. */
  function LookupName(ps: seq<(string, int)>, code: int): Option<string> {
    if code in Backward(ps) then Some(Backward(ps)[code]) else None
  }

  /** A name that was never put is NOT_FOUND, and a code that was never put has no name. */
  lemma NeverPut(ps: seq<(string, int)>, key: string, code: int)
    requires forall i :: 0 <= i < |ps| ==> ps[i].0 != key
    requires forall i :: 0 <= i < |ps| ==> ps[i].1 != code
    ensures Lookup(ps, key) == NOT_FOUND && LookupName(ps, code) == None
  {
    OnlyPut(ps);
  }

  /** In a one-to-one table every name put translates to its code and back. */
  lemma TranslatesBack(ps: seq<(string, int)>, i: int)
    requires OneToOne(ps) && 0 <= i < |ps|
    ensures Lookup(ps, ps[i].0) == ps[i].1 && LookupName(ps, ps[i].1) == Some(ps[i].0)
  {
    OneToOneFound(ps);
  }

  /** With HEVC available the video table is one-to-one: every name and every code translates back. */
  lemma VideoTableWithHevc()
    ensures OneToOne(VideoPairs(VIDEO_HEVC))
    ensures Lookup(VideoPairs(VIDEO_HEVC), "h265") == VIDEO_HEVC
    ensures LookupName(VideoPairs(VIDEO_HEVC), VIDEO_DEFAULT) == Some("default")
  {
    TranslatesBack(VideoPairs(VIDEO_HEVC), 0);
    TranslatesBack(VideoPairs(VIDEO_HEVC), 3);
  }

  /**
   * Without either field "h265" is put with DEFAULT after "default":
   * "default" and "h265" both translate to DEFAULT, and DEFAULT translates
   * back to "h265".
   */
  lemma VideoTableWithoutHevc()
    ensures Lookup(VideoPairs(VIDEO_DEFAULT), "default") == VIDEO_DEFAULT
    ensures Lookup(VideoPairs(VIDEO_DEFAULT), "h265") == VIDEO_DEFAULT
    ensures LookupName(VideoPairs(VIDEO_DEFAULT), VIDEO_DEFAULT) == Some("h265")
  {
    var ps := VideoPairs(VIDEO_DEFAULT);
    assert ps[..5][..4] == ps[..4] && ps[..4][..3] == ps[..3];
    assert ps[..3][..2] == ps[..2] && ps[..2][..1] == ps[..1] && ps[..1][..0] == [];
    assert Forward(ps[..1]) == map["default" := VIDEO_DEFAULT];
    assert Forward(ps[..3]) == Forward(ps[..1])["h263" := VIDEO_H263]["h264" := VIDEO_H264];
    assert Forward(ps[..4]) == Forward(ps[..3])["h265" := VIDEO_DEFAULT];
    assert Forward(ps) == Forward(ps[..4])["mpeg-4-sp" := VIDEO_MPEG_4_SP]["vp8" := VIDEO_VP8];
    assert Backward(ps) == Backward(ps[..4])[VIDEO_MPEG_4_SP := "mpeg-4-sp"][VIDEO_VP8 := "vp8"];
    assert Backward(ps[..4]) == Backward(ps[..3])[VIDEO_DEFAULT := "h265"];
  }

  /** The audio and noise-reduction tables are one-to-one, so each of their names translates back. */
  lemma AudioAndNoiseTables()
    ensures OneToOne(AudioPairs()) && OneToOne(NoisePairs())
    ensures forall i :: 0 <= i < |AudioPairs()| ==> LookupName(AudioPairs(), Lookup(AudioPairs(), AudioPairs()[i].0)) == Some(AudioPairs()[i].0)
    ensures forall i :: 0 <= i < |NoisePairs()| ==> LookupName(NoisePairs(), Lookup(NoisePairs(), NoisePairs()[i].0)) == Some(NoisePairs()[i].0)
  {
    OneToOneFound(AudioPairs());
    OneToOneFound(NoisePairs());
  }
}
