/**
 * The extraction folder `zip_downloader` derives from a download link:
 * the link's file name, stripped with `strip('?r=1')` and then
 * `strip('.zip')`, placed under the download folder. The download and the
 * extraction themselves are not modelled.
 */
module Download {
  import opened Text

  /** `link.split('/')[-1]`. */
  function FileName(link: string): string {
    AfterLastSlash(link)
  }

  /** `file_name.strip('?r=1').strip('.zip')`, as written. */
  function FolderStem(fileName: string): string {
    Strip(Strip(fileName, "?r=1"), ".zip")
  }

  /** The `file_path` that `zip_downloader` extracts into and returns. */
  function FolderPath(link: string, downloadFolder: string): string {
    downloadFolder + FolderStem(FileName(link)) + "/"
  }

  lemma StripKeepsOnlyInput(s: string, chars: string, c: char)
    requires c in Strip(s, chars)
    ensures c in s
  {
    var t := TrimLeft(s, chars);
    var r := Strip(s, chars);
    TrimLeftSpec(s, chars);
    TrimRightSpec(t, chars);
    var k :| 0 <= k < |r| && r[k] == c;
    assert t[k] == c;
    assert s[|s| - |t| + k] == c;
  }

  lemma StemComesFromName(name: string)
    ensures forall c :: c in FolderStem(name) ==> c in name
  {
    var once := Strip(name, "?r=1");
    forall c | c in FolderStem(name) ensures c in name {
      StripKeepsOnlyInput(once, ".zip", c);
      StripKeepsOnlyInput(name, "?r=1", c);
    }
  }

  lemma StemBoundaries(name: string)
    ensures var stem := FolderStem(name);
      && (stem == [] || (stem[0] !in ".zip" && stem[|stem| - 1] !in ".zip"))
      && Strip(stem, ".zip") == stem
  {
    var once := Strip(name, "?r=1");
    StripSlice(once, ".zip");
    var i :| StrippedAt(once, ".zip", FolderStem(name), i);
  }

  /**
   * The folder is the download folder followed by one path segment and a
   * closing `/`. The segment is made of characters of the link's file name,
   * holds no `/`, neither starts nor ends with `.`, `z`, `i` or `p`, and
   * `strip('.zip')` leaves it unchanged.
   */
  lemma FolderPathShape(link: string, downloadFolder: string)
    ensures var path := FolderPath(link, downloadFolder);
      var stem := FolderStem(FileName(link));
      && StartsWith(path, downloadFolder) && EndsWith(path, "/")
      && path[|downloadFolder|..|path| - 1] == stem
      && (forall c :: c in stem ==> c in FileName(link) && c != '/')
      && (stem == [] || (stem[0] !in ".zip" && stem[|stem| - 1] !in ".zip"))
      && Strip(stem, ".zip") == stem
  {
    var stem := FolderStem(FileName(link));
    var path := FolderPath(link, downloadFolder);
    assert path == downloadFolder + stem + "/";
    assert path[..|downloadFolder|] == downloadFolder;
    assert path[|path| - 1..] == "/";
    assert path[|downloadFolder|..|path| - 1] == stem;
    StemComesFromName(FileName(link));
    StemBoundaries(FileName(link));
  }

  /**
   * The two strips together are not idempotent: stripping `?r=1` again can
   * expose a character of `.zip` at the end.
   */
  lemma FolderStemNotIdempotent()
    ensures FolderStem("a1.zip") == "a1"
    ensures FolderStem(FolderStem("a1.zip")) == "a"
  {
    assert Strip("a1.zip", "?r=1") == "a1.zip";
    StripA1Zip();
    assert Strip("a1", "?r=1") == "a1"[..1];
    assert Strip("a", ".zip") == "a";
  }

  lemma StripA1Zip()
    ensures Strip("a1.zip", ".zip") == "a1"
  {
    assert TrimLeft("a1.zip", ".zip") == "a1.zip";
    assert "a1.zip"[..5] == "a1.zi";
    assert "a1.zi"[..4] == "a1.z";
    assert "a1.z"[..3] == "a1.";
    assert "a1."[..2] == "a1";
  }

  /**
   * `strip('.zip')` removes characters, not the extension: a stem that
   * starts or ends with one of `.`, `z`, `i`, `p` loses those characters too.
   */
  lemma FolderStemEatsStem()
    ensures FolderStem("parks_shp.zip") == "arks_sh"
    ensures IntendedStem("parks_shp.zip") == "parks_shp"
  {
    assert Strip("parks_shp.zip", "?r=1") == "parks_shp.zip";
    StripParksLeft();
    StripParksRight();
    assert !EndsWith("parks_shp.zip", "?r=1");
    assert EndsWith("parks_shp.zip", ".zip");
    assert "parks_shp.zip"[..9] == "parks_shp";
  }

  lemma StripParksLeft()
    ensures TrimLeft("parks_shp.zip", ".zip") == "arks_shp.zip"
  {
    assert "parks_shp.zip"[1..] == "arks_shp.zip";
    assert TrimLeft("arks_shp.zip", ".zip") == "arks_shp.zip";
  }

  lemma StripParksRight()
    ensures TrimRight("arks_shp.zip", ".zip") == "arks_sh"
  {
    assert "arks_shp.zip"[..11] == "arks_shp.zi";
    assert "arks_shp.zi"[..10] == "arks_shp.z";
    assert "arks_shp.z"[..9] == "arks_shp.";
    assert "arks_shp."[..8] == "arks_shp";
    assert "arks_shp"[..7] == "arks_sh";
    assert TrimRight("arks_sh", ".zip") == "arks_sh";
  }

  /** Removes `suffix` from the end of `s` when `s` ends with it. */
  function RemoveSuffix(s: string, suffix: string): string {
    if EndsWith(s, suffix) then s[..|s| - |suffix|] else s
  }

  /** The evidently intended trimming: drop a trailing `?r=1`, then a trailing `.zip`. */
  function IntendedStem(fileName: string): string {
    RemoveSuffix(RemoveSuffix(fileName, "?r=1"), ".zip")
  }

  function FolderPathIntended(link: string, downloadFolder: string): string {
    downloadFolder + IntendedStem(FileName(link)) + "/"
  }

  /** The file name is everything after the last `/`. */
  lemma FileNameAfterSlash(dir: string, name: string)
    requires '/' !in name
    ensures FileName(dir + "/" + name) == name
  {
    var s := dir + "/" + name;
    var r := FileName(s);
    assert s[|s| - |name| - 1] == '/';
    assert forall k :: |s| - |name| <= k < |s| ==> s[k] == name[k - (|s| - |name|)];
    assert r == s[|s| - |r|..];
    assert name == s[|s| - |name|..];
  }

  /**
   * With the intended trimming, the folder of `<dir>/<stem>.zip` is named
   * after `<stem>` exactly, whatever its characters.
   */
  lemma FolderPathIntendedRoundTrip(dir: string, stem: string, downloadFolder: string)
    requires '/' !in stem
    ensures FolderPathIntended(dir + "/" + stem + ".zip", downloadFolder) == downloadFolder + stem + "/"
  {
    var plain := stem + ".zip";
    assert '/' !in plain by {
      assert forall c :: c in plain ==> c in stem || c in ".zip";
    }
    assert dir + "/" + stem + ".zip" == dir + "/" + plain;
    FileNameAfterSlash(dir, plain);
    assert !EndsWith(plain, "?r=1");
    assert RemoveSuffix(plain, ".zip") == stem;
  }

  /** The same for a link carrying the `?r=1` query. */
  lemma FolderPathIntendedRoundTripQuery(dir: string, stem: string, downloadFolder: string)
    requires '/' !in stem
    ensures FolderPathIntended(dir + "/" + stem + ".zip?r=1", downloadFolder) == downloadFolder + stem + "/"
  {
    var plain := stem + ".zip";
    var query := stem + ".zip?r=1";
    assert '/' !in query by {
      assert forall c :: c in query ==> c in stem || c in ".zip?r=1";
    }
    assert dir + "/" + stem + ".zip?r=1" == dir + "/" + query;
    FileNameAfterSlash(dir, query);
    assert RemoveSuffix(query, "?r=1") == plain;
    assert !EndsWith(plain, "?r=1");
    assert RemoveSuffix(plain, ".zip") == stem;
  }
}
