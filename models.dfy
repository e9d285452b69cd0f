/**
 * Model of `csvimporter/models.py`: the `CSV` record of one uploaded file, with the
 * stored file name, the comma-joined id list the import writes back, and the display
 * name with the upload directory taken out.
 */
module Models {
  import opened Wrappers
  import opened Strings

  /** The directory name used when the setting `CSVIMPORTER_UPLOAD_TO` is absent. */
  const DefaultUploadTo: string := "csvimporter"

  /** One uploaded CSV file awaiting, or having completed, its import. */
  class Csv {
    /** `upload_to`: the directory the file field stores uploads under. */
    const uploadTo: string
    /** `csv_file.name`: the name the file storage recorded, directory included. */
    var fileName: string
    /** `result_id_list`: the comma-joined primary keys of the imported records, or `None`. */
    var resultIdList: Option<string>

    /** A freshly uploaded file: no import has written an id list yet. */
    constructor (uploadTo: string, fileName: string)
      ensures this.uploadTo == uploadTo && this.fileName == fileName
      ensures resultIdList == None
    {
      this.uploadTo := uploadTo;
      this.fileName := fileName;
      resultIdList := None;
    }

    /** The text `'%s/' % upload_to` that `filename` deletes. */
    function DirectoryText(): string
      reads this
    {
      uploadTo + "/"
    }

    /**
     * `filename`: the stored name with every non-overlapping occurrence of
     * `upload_to + "/"` deleted, left to right. A name without that text is returned as
     * it is; a name that is that text followed by a remainder without it gives exactly
     * the remainder; and the name shrinks by a whole copy of the text per occurrence
     * removed.
     */
    function Filename(): (r: string)
      reads this
      ensures |r| <= |fileName|
      ensures |fileName| - |r| == RemovedCount(fileName, DirectoryText()) * (|uploadTo| + 1)
      ensures !Contains(fileName, DirectoryText()) ==> r == fileName
      ensures IsPrefix(DirectoryText(), fileName) &&
              !Contains(fileName[|uploadTo| + 1..], DirectoryText())
              ==> r == fileName[|uploadTo| + 1..]
    {
      RemoveAllLength(fileName, DirectoryText());
      RemoveAllAfterPrefix(fileName, DirectoryText());
      RemoveAll(fileName, DirectoryText())
    }
  }

  /**
   * Not only a leading directory goes: with the default directory, the stored name
   * `csvimporter/a/csvimporter/b.csv` is displayed as `a/b.csv`.
   */
  lemma FilenameRemovesEveryOccurrence(c: Csv)
    requires c.uploadTo == DefaultUploadTo
    requires c.fileName == "csvimporter/a/csvimporter/b.csv"
    ensures c.Filename() == "a/b.csv"
  {
    var pat := "csvimporter/";
    assert c.DirectoryText() == pat;
    assert c.fileName == pat + ("a" + ("/" + (pat + "b.csv")));
    calc {
      RemoveAll(pat + ("a" + ("/" + (pat + "b.csv"))), pat);
      { RemoveAllPrefix(pat, "a" + ("/" + (pat + "b.csv"))); }
      RemoveAll("a" + ("/" + (pat + "b.csv")), pat);
      { assert ("a" + ("/" + (pat + "b.csv")))[0] != pat[0];
        RemoveAllKeep(pat, 'a', "/" + (pat + "b.csv")); }
      "a" + RemoveAll("/" + (pat + "b.csv"), pat);
      { assert ("/" + (pat + "b.csv"))[0] != pat[0];
        RemoveAllKeep(pat, '/', pat + "b.csv"); }
      "a" + ("/" + RemoveAll(pat + "b.csv", pat));
      { RemoveAllPrefix(pat, "b.csv"); }
      "a" + ("/" + RemoveAll("b.csv", pat));
      "a/b.csv";
    }
  }
}
