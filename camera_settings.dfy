// CameraSettings: the comma-list splitter, picture-size selection, the
// upgrades of stored preferences between versions, the video duration limits
// and the pruning of list preferences to what the device supports.
module CameraSettings {
  import opened Bytes
  import opened Text

  const NOT_FOUND: int := -1

  // ----- split -----

  /** A non-empty piece in front is kept as the first token. */
  lemma NonEmptyCons(a: string, ps: seq<string>)
    requires a != ""
    ensures NonEmpty([a] + ps) == [a] + NonEmpty(ps)
  {
    assert ([a] + ps)[1..] == ps;
  }

  /** A separator at the front of the rest yields no token. */
  lemma TokensSkip(s: string, sep: char)
    requires |s| > 0 && s[0] == sep
    ensures Tokens(s, sep) == Tokens(s[1..], sep)
  {
    assert ([""] + Pieces(s[1..], sep))[1..] == Pieces(s[1..], sep);
  }

  /** A token runs from the front of the rest up to the next separator, or to the end. */
  lemma TokensTake(s: string, sep: char, j: nat)
    requires 0 < j <= |s|
    requires forall k :: 0 <= k < j ==> s[k] != sep
    requires j < |s| ==> s[j] == sep
    ensures j < |s| ==> Tokens(s, sep) == [s[..j]] + Tokens(s[j + 1..], sep)
    ensures j == |s| ==> Tokens(s, sep) == [s]
  {
    if j < |s| {
      assert s == s[..j] + [sep] + s[j + 1..];
      PiecesCons(s[..j], sep, s[j + 1..]);
      NonEmptyCons(s[..j], Pieces(s[j + 1..], sep));
    } else {
      PiecesNone(s, sep);
      NonEmptyCons(s, []);
    }
  }

  /**
   * `split`: None (null) for a null string; otherwise the non-empty
   * comma-separated tokens in order, as the `StringTokenizer` loop collects
   * them.
   */
  method Split(str: Option<string>) returns (substrings: Option<seq<string>>)
    ensures str.None? ==> substrings.None?
    ensures str.Some? ==> substrings == Some(Tokens(str.value, ','))
  {
    if str.None? {
      return None;
    }
    var s := str.value;
    var list: seq<string> := [];
    var i := 0;
    while i < |s|
      invariant 0 <= i <= |s|
      invariant list + Tokens(s[i..], ',') == Tokens(s, ',')
    {
      if s[i] == ',' {
        SkipAt(s, i);
        i := i + 1;
      } else {
        var j := IndexOf(s[i..], ',');
        TokenAt(s, i, j);
        if j < 0 {
          Regroup(list, s[i..], Tokens(s[|s|..], ','));
          list := list + [s[i..]];
          i := |s|;
        } else {
          Regroup(list, s[i..i + j], Tokens(s[i + j + 1..], ','));
          list := list + [s[i..i + j]];
          i := i + j + 1;
        }
      }
    }
    assert s[i..] == "";
    TokensEmpty(',');
    assert list + [] == list;
    substrings := Some(list);
  }

  /** The empty string has no tokens. */
  lemma TokensEmpty(sep: char)
    ensures Tokens("", sep) == []
  {
    assert [""][1..] == [];
  }

  lemma Regroup(list: seq<string>, token: string, rest: seq<string>)
    ensures list + ([token] + rest) == (list + [token]) + rest
  {
  }

  /** Skipping a separator at position i. */
  lemma SkipAt(s: string, i: nat)
    requires i < |s| && s[i] == ','
    ensures Tokens(s[i..], ',') == Tokens(s[i + 1..], ',')
  {
    TokensSkip(s[i..], ',');
    assert s[i..][1..] == s[i + 1..];
  }

  /**
   * The token starting at position i ends where `IndexOf` finds the next
   * separator, or at the end.
   */
  lemma TokenAt(s: string, i: nat, j: int)
    requires i < |s| && s[i] != ',' && j == IndexOf(s[i..], ',')
    ensures j < 0 ==> Tokens(s[i..], ',') == [s[i..]] + Tokens(s[|s|..], ',')
    ensures j >= 0 ==> i + j < |s| && Tokens(s[i..], ',') == [s[i..i + j]] + Tokens(s[i + j + 1..], ',')
  {
    var rest := s[i..];
    if j < 0 {
      TokensTake(rest, ',', |rest|);
      assert s[|s|..] == [];
    } else {
      assert j > 0;
      assert forall k :: 0 <= k < j ==> rest[k] != ',' by {
        forall k | 0 <= k < j ensures rest[k] != ',' {
          assert rest[k] == rest[..j][k];
        }
      }
      TokensTake(rest, ',', j);
      assert rest[j + 1..] == s[i + j + 1..];
      assert rest[..j] == s[i..i + j];
    }
  }

  /** Joining non-empty, comma-free tokens with commas and splitting again gives the tokens back. */
  lemma {:induction false} SplitJoin(ts: seq<string>, sep: char)
    requires forall k :: 0 <= k < |ts| ==> ts[k] != ""
    requires forall k, j :: 0 <= k < |ts| && 0 <= j < |ts[k]| ==> ts[k][j] != sep
    ensures Tokens(Join(ts, sep), sep) == ts
    decreases |ts|
  {
    if |ts| == 0 {
      TokensEmpty(sep);
    } else if |ts| == 1 {
      PiecesNone(ts[0], sep);
      NonEmptyCons(ts[0], []);
    } else if |ts| > 1 {
      SplitJoin(ts[1..], sep);
      assert Join(ts, sep) == ts[0] + [sep] + Join(ts[1..], sep);
      PiecesCons(ts[0], sep, Join(ts[1..], sep));
      NonEmptyCons(ts[0], Pieces(Join(ts[1..], sep), sep));
      assert ts == [ts[0]] + ts[1..];
    }
  }

  // ----- setCameraPictureSize -----

  datatype Size = Size(width: int, height: int)

  /** The part of `Camera.Parameters` the picture size is written to. */
  class Parameters {
    var pictureSize: Option<Size>

    constructor()
      ensures pictureSize == None
    {
      pictureSize := None;
    }
  }

  /**
   * `setCameraPictureSize`: "WxH" is split at its first 'x' and both parts
   * parsed (a part that is not a number throws, `thrown`); the size is set and
   * true returned exactly when (W, H) is a supported size.
   */
  method SetCameraPictureSize(candidate: string, supported: seq<Size>, parameters: Parameters)
    returns (thrown: bool, applied: bool)
    modifies parameters
    ensures IndexOf(candidate, 'x') == NOT_FOUND ==> !thrown && !applied
    ensures IndexOf(candidate, 'x') != NOT_FOUND ==>
      var index := IndexOf(candidate, 'x');
      var width := ParseInt(candidate[..index]);
      var height := ParseInt(candidate[index + 1..]);
      (thrown <==> width.None? || height.None?) &&
      (!thrown ==> (applied <==> Size(width.value, height.value) in supported) &&
                   (applied ==> parameters.pictureSize == Some(Size(width.value, height.value))))
    ensures !applied ==> parameters.pictureSize == old(parameters.pictureSize)
    ensures thrown ==> !applied
  {
    var index := IndexOf(candidate, 'x');
    if index == NOT_FOUND {
      return false, false;
    }
    var width := ParseInt(candidate[..index]);
    var height := ParseInt(candidate[index + 1..]);
    if width.None? || height.None? {
      return true, false;
    }
    var found := FindSize(supported, Size(width.value, height.value));
    if found {
      parameters.pictureSize := Some(Size(width.value, height.value));
    }
    return false, found;
  }

  /** The scan over the supported sizes. */
  method FindSize(supported: seq<Size>, wanted: Size) returns (found: bool)
    ensures found <==> wanted in supported
  {
    var i := 0;
    while i < |supported|
      invariant 0 <= i <= |supported|
      invariant wanted !in supported[..i]
    {
      var size := supported[i];
      if size.width == wanted.width && size.height == wanted.height {
        return true;
      }
      assert supported[..i + 1] == supported[..i] + [size];
      i := i + 1;
    }
    assert supported[..i] == supported;
    return false;
  }

  // ----- stored preferences -----

  /** A stored preference value, with the type it was written as. */
  datatype Pref = IntPref(i: int) | StrPref(s: string) | BoolPref(b: bool)

  type Prefs = map<string, Pref>

  const KEY_VERSION: string := "pref_version_key"
  const KEY_LOCAL_VERSION: string := "pref_local_version_key"
  const KEY_RECORD_LOCATION: string := "pref_camera_recordlocation_key"
  const KEY_JPEG_QUALITY: string := "pref_camera_jpegquality_key"
  const KEY_CAMERA_ID: string := "pref_camera_id_key"
  const KEY_OLD_VIDEO_QUALITY: string := "pref_video_quality_key"
  const KEY_OLD_CAMERA_VIDEOQUALITY: string := "pref_camera_videoquality_key"
  const KEY_OLD_VIDEO_DURATION: string := "pref_camera_video_duration_key"
  const CURRENT_VERSION: int := 5
  const CURRENT_LOCAL_VERSION: int := 2
  /** `RecordLocationPreference.VALUE_ON` / `VALUE_NONE`. */
  const VALUE_ON: string := "on"
  const VALUE_NONE: string := "none"

  /**
   * A version read with `getInt(key, 0)` inside a try block: 0 when missing,
   * and 0 as well when stored with another type (the exception is caught).
   */
  function ReadVersion(prefs: Prefs, key: string): (v: int)
    ensures key in prefs && prefs[key].IntPref? ==> v == prefs[key].i
    ensures !(key in prefs && prefs[key].IntPref?) ==> v == 0
  {
    if key in prefs && prefs[key].IntPref? then prefs[key].i else 0
  }

  /** `getString(key, default)`; None is the ClassCastException of a value stored with another type. */
  function GetString(prefs: Prefs, key: string, default: string): (r: Option<string>)
    ensures key !in prefs ==> r == Some(default)
    ensures key in prefs ==> (r.Some? <==> prefs[key].StrPref?)
    ensures key in prefs && r.Some? ==> r.value == prefs[key].s
  {
    if key !in prefs then Some(default)
    else if prefs[key].StrPref? then Some(prefs[key].s)
    else None
  }

  /** `getBoolean(key, default)`; None is the ClassCastException. */
  function GetBoolean(prefs: Prefs, key: string, default: bool): (r: Option<bool>)
    ensures key !in prefs ==> r == Some(default)
    ensures key in prefs ==> (r.Some? <==> prefs[key].BoolPref?)
    ensures key in prefs && r.Some? ==> r.value == prefs[key].b
  {
    if key !in prefs then Some(default)
    else if prefs[key].BoolPref? then Some(prefs[key].b)
    else None
  }

  /** The version-1 JPEG quality numbers 65 and 75 become "normal" and "fine"; anything else the default. */
  function UpgradedQuality(quality: string, qualityDefault: string): string
  {
    if quality == "65" then "normal" else if quality == "75" then "fine" else qualityDefault
  }

  /** The keys an upgrade of the global preferences may write or remove. */
  predicate UpgradeKey(k: string)
  {
    k == KEY_VERSION || k == KEY_JPEG_QUALITY || k == KEY_RECORD_LOCATION
    || k == KEY_OLD_CAMERA_VIDEOQUALITY || k == KEY_OLD_VIDEO_DURATION
  }

  /**
   * `upgradeOldVersion`: steps the stored version up one upgrade at a time
   * (0 is treated as 1), collecting the edits over the preferences as read
   * before the upgrade, and finally records version 5. None is an exception
   * from reading a value stored with the wrong type; `qualityDefault` is the
   * `pref_camera_jpegquality_default` resource.
   */
  method UpgradeOldVersion(prefs: Prefs, qualityDefault: string) returns (r: Option<Prefs>)
    ensures var v := ReadVersion(prefs, KEY_VERSION);
      (v == CURRENT_VERSION ==> r == Some(prefs)) &&
      (r.None? <==>
        (0 <= v <= 1 && GetString(prefs, KEY_JPEG_QUALITY, "85").None?) ||
        (0 <= v <= 2 && GetBoolean(prefs, KEY_RECORD_LOCATION, false).None?)) &&
      (r.Some? ==> KEY_VERSION in r.value && r.value[KEY_VERSION] == IntPref(CURRENT_VERSION)) &&
      (r.Some? && 0 <= v <= 1 ==>
        KEY_JPEG_QUALITY in r.value &&
        r.value[KEY_JPEG_QUALITY] == StrPref(UpgradedQuality(GetString(prefs, KEY_JPEG_QUALITY, "85").value, qualityDefault))) &&
      (r.Some? && 0 <= v <= 2 ==>
        KEY_RECORD_LOCATION in r.value &&
        r.value[KEY_RECORD_LOCATION] ==
          StrPref(if GetBoolean(prefs, KEY_RECORD_LOCATION, false).value then VALUE_ON else VALUE_NONE)) &&
      (r.Some? && 0 <= v <= 3 ==>
        KEY_OLD_CAMERA_VIDEOQUALITY !in r.value && KEY_OLD_VIDEO_DURATION !in r.value) &&
      (r.Some? && !(0 <= v <= 3) ==> r.value == prefs[KEY_VERSION := IntPref(CURRENT_VERSION)]) &&
      (r.Some? ==> forall k :: !UpgradeKey(k) ==>
        (k in r.value <==> k in prefs) && (k in prefs ==> r.value[k] == prefs[k]))
  {
    var version := ReadVersion(prefs, KEY_VERSION);
    if version == CURRENT_VERSION {
      return Some(prefs);
    }
    var edited := prefs;
    if version == 0 {
      version := 1;
    }
    if version == 1 {
      var stored := GetString(prefs, KEY_JPEG_QUALITY, "85");
      if stored.None? {
        return None;
      }
      var quality := stored.value;
      if quality == "65" {
        quality := "normal";
      } else if quality == "75" {
        quality := "fine";
      } else {
        quality := qualityDefault;
      }
      edited := edited[KEY_JPEG_QUALITY := StrPref(quality)];
      version := 2;
    }
    if version == 2 {
      var recordLocation := GetBoolean(prefs, KEY_RECORD_LOCATION, false);
      if recordLocation.None? {
        return None;
      }
      edited := edited[KEY_RECORD_LOCATION := StrPref(if recordLocation.value then VALUE_ON else VALUE_NONE)];
      version := 3;
    }
    if version == 3 {
      edited := edited - {KEY_OLD_CAMERA_VIDEOQUALITY, KEY_OLD_VIDEO_DURATION};
    }
    edited := edited[KEY_VERSION := IntPref(CURRENT_VERSION)];
    r := Some(edited);
  }

  /**
   * `upgradeLocalPreferences`: unless the local version is already 2, it is
   * set to 2, and coming from version 1 the old video quality key is removed.
   */
  function UpgradeLocalPreferences(prefs: Prefs): (r: Prefs)
    ensures ReadVersion(r, KEY_LOCAL_VERSION) == CURRENT_LOCAL_VERSION
    ensures KEY_OLD_VIDEO_QUALITY in r <==>
      KEY_OLD_VIDEO_QUALITY in prefs && ReadVersion(prefs, KEY_LOCAL_VERSION) != 1
    ensures ReadVersion(prefs, KEY_LOCAL_VERSION) == CURRENT_LOCAL_VERSION ==> r == prefs
    ensures forall k :: k != KEY_LOCAL_VERSION && k != KEY_OLD_VIDEO_QUALITY ==>
      (k in r <==> k in prefs) && (k in prefs ==> r[k] == prefs[k])
  {
    var version := ReadVersion(prefs, KEY_LOCAL_VERSION);
    if version == CURRENT_LOCAL_VERSION then prefs
    else
      var edited := if version == 1 then prefs - {KEY_OLD_VIDEO_QUALITY} else prefs;
      edited[KEY_LOCAL_VERSION := IntPref(CURRENT_LOCAL_VERSION)]
  }

  /** Upgrading the local preferences a second time changes nothing. */
  lemma UpgradeLocalIdempotent(prefs: Prefs)
    ensures UpgradeLocalPreferences(UpgradeLocalPreferences(prefs)) == UpgradeLocalPreferences(prefs)
  {
  }

  /**
   * `readPreferredCameraId`: the stored id string (the back camera's id when
   * missing) parsed; None when it is stored with another type or is not a number.
   */
  function ReadPreferredCameraId(prefs: Prefs, backCameraId: int): (id: Option<int>)
    ensures id.Some? ==> IsInt32(id.value)
  {
    var s := GetString(prefs, KEY_CAMERA_ID, IntString(backCameraId));
    if s.None? then None else ParseInt(s.value)
  }

  /**
   * `upgradeCameraId`: a stored id outside [0, numberOfCameras) is rewritten
   * as 0, an id inside it is written back as it reads; 0 is left alone. None
   * is the exception from reading an unreadable id.
   */
  function UpgradeCameraId(prefs: Prefs, backCameraId: int, numberOfCameras: int): (r: Option<Prefs>)
    ensures r.None? <==> ReadPreferredCameraId(prefs, backCameraId).None?
    ensures r.Some? ==>
      var id := ReadPreferredCameraId(prefs, backCameraId).value;
      ReadPreferredCameraId(r.value, backCameraId) == Some(if 0 <= id < numberOfCameras then id else 0)
    ensures r.Some? ==> forall k :: k != KEY_CAMERA_ID ==>
      ((k in r.value <==> k in prefs) && (k in prefs ==> r.value[k] == prefs[k]))
  {
    match ReadPreferredCameraId(prefs, backCameraId)
    case None => None
    case Some(cameraId) =>
      if cameraId == 0 then Some(prefs)
      else
        var id := if cameraId < 0 || cameraId >= numberOfCameras then 0 else cameraId;
        ParseIntString(id);
        Some(prefs[KEY_CAMERA_ID := StrPref(IntString(id))])
  }

  /** Upgrading the camera id a second time changes nothing. */
  lemma UpgradeCameraIdIdempotent(prefs: Prefs, backCameraId: int, numberOfCameras: int)
    requires UpgradeCameraId(prefs, backCameraId, numberOfCameras).Some?
    ensures var p := UpgradeCameraId(prefs, backCameraId, numberOfCameras).value;
            UpgradeCameraId(p, backCameraId, numberOfCameras) == Some(p)
  {
    var cameraId := ReadPreferredCameraId(prefs, backCameraId).value;
    var p := UpgradeCameraId(prefs, backCameraId, numberOfCameras).value;
    if cameraId != 0 {
      var id := if cameraId < 0 || cameraId >= numberOfCameras then 0 else cameraId;
      assert p == prefs[KEY_CAMERA_ID := StrPref(IntString(id))];
      ParseIntString(id);
      assert ReadPreferredCameraId(p, backCameraId) == Some(id);
      assert p[KEY_CAMERA_ID := StrPref(IntString(id))] == p;
    }
  }

  // ----- getVideoDurationInMillis -----

  const VIDEO_QUALITY_MMS: string := "mms"
  const VIDEO_QUALITY_YOUTUBE: string := "youtube"
  /** 15 minutes. */
  const YOUTUBE_VIDEO_DURATION: int := 15 * 60
  /** No limit. */
  const DEFAULT_VIDEO_DURATION: int := 0

  /**
   * `getVideoDurationInMillis`; `mmsVideoDuration` is the low-quality
   * camcorder profile's duration in seconds (or 30 without one).
   */
  function GetVideoDurationInMillis(quality: string, mmsVideoDuration: int): (ms: int)
    ensures quality == VIDEO_QUALITY_MMS ==> ms == Int32(mmsVideoDuration * 1000)
    ensures quality == VIDEO_QUALITY_YOUTUBE ==> ms == 900000
    ensures quality != VIDEO_QUALITY_MMS && quality != VIDEO_QUALITY_YOUTUBE ==> ms == 0
  {
    if quality == VIDEO_QUALITY_MMS then Int32(mmsVideoDuration * 1000)
    else if quality == VIDEO_QUALITY_YOUTUBE then YOUTUBE_VIDEO_DURATION * 1000
    else DEFAULT_VIDEO_DURATION * 1000
  }

  // ----- list preferences -----

  /** One option of a list preference: the title shown and the value stored. */
  datatype Entry = Entry(title: string, value: string)

  /** A `ListPreference`: its key, its options and the current value. */
  datatype ListPreference = ListPreference(key: string, entries: seq<Entry>, value: string)

  /** `findIndexOfValue(value) != NOT_FOUND`. */
  predicate HasValue(entries: seq<Entry>, value: string)
  {
    exists k :: 0 <= k < |entries| && entries[k].value == value
  }

  /** `filterUnsupported`: the options whose value is supported, in their order. */
  function FilterUnsupported(entries: seq<Entry>, supported: seq<string>): (r: seq<Entry>)
    ensures |r| <= |entries|
    ensures forall k :: 0 <= k < |r| ==> r[k] in entries && r[k].value in supported
    ensures forall e :: e in entries && e.value in supported ==> e in r
    decreases |entries|
  {
    if |entries| == 0 then []
    else
      var rest := FilterUnsupported(entries[1..], supported);
      if entries[0].value in supported then [entries[0]] + rest else rest
  }

  /**
   * `removePreference` over a screen's preference keys: the first preference
   * with the key is removed; true when there was one.
   */
  function RemovePreference(group: seq<string>, key: string): (r: (bool, seq<string>))
    ensures r.0 <==> key in group
    ensures r.0 ==> exists i :: 0 <= i < |group| && group[i] == key && key !in group[..i]
                              && r.1 == group[..i] + group[i + 1..]
    ensures !r.0 ==> r.1 == group
  {
    var i := FirstIndex(group, key);
    if i < 0 then (false, group) else (true, group[..i] + group[i + 1..])
  }

  /** The index of the first preference with the key, or -1. */
  function FirstIndex(group: seq<string>, key: string): (i: int)
    ensures -1 <= i < |group|
    ensures i >= 0 ==> group[i] == key && key !in group[..i]
    ensures i < 0 ==> key !in group
    decreases |group|
  {
    if |group| == 0 then -1
    else if group[0] == key then 0
    else
      var j := FirstIndex(group[1..], key);
      assert group == [group[0]] + group[1..];
      if j < 0 then -1
      else
        assert group[..j + 1] == [group[0]] + group[1..][..j];
        j + 1
  }

  /**
   * `resetIfInvalid`: a value that is not one of the options is replaced by
   * the first option's value (an empty option list would throw, and is
   * excluded).
   */
  function ResetIfInvalid(pref: ListPreference): (r: ListPreference)
    requires |pref.entries| > 0
    ensures r.key == pref.key && r.entries == pref.entries
    ensures HasValue(r.entries, r.value)
    ensures r.value == pref.value <==> HasValue(pref.entries, pref.value)
  {
    if HasValue(pref.entries, pref.value) then pref
    else pref.(value := pref.entries[0].value)
  }

  /**
   * `filterUnsupportedOptions`: with no support list or at most one supported
   * value the preference is removed from the screen; otherwise its options are
   * narrowed to the supported ones, and it is removed if at most one is left,
   * else its value is made valid. The answer is whether it was removed.
   */
  function FilterUnsupportedOptions(group: seq<string>, pref: ListPreference, supported: Option<seq<string>>): (r: (bool, seq<string>, ListPreference))
    ensures r.0 <==> supported.None? || |supported.value| <= 1 ||
                     |FilterUnsupported(pref.entries, supported.value)| <= 1
    ensures r.0 ==> r.1 == RemovePreference(group, pref.key).1
    ensures !r.0 ==>
      (r.1 == group && r.2.key == pref.key &&
       r.2.entries == FilterUnsupported(pref.entries, supported.value) &&
       HasValue(r.2.entries, r.2.value) && r.2.value in supported.value &&
       (r.2.value == pref.value <==> HasValue(r.2.entries, pref.value)))
  {
    if supported.None? || |supported.value| <= 1 then
      (true, RemovePreference(group, pref.key).1, pref)
    else
      var filtered := pref.(entries := FilterUnsupported(pref.entries, supported.value));
      if |filtered.entries| <= 1 then (true, RemovePreference(group, pref.key).1, filtered)
      else
        var reset := ResetIfInvalid(filtered);
        assert reset.value in supported.value by {
          var k :| 0 <= k < |reset.entries| && reset.entries[k].value == reset.value;
        }
        (false, group, reset)
  }
}
