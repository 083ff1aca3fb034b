/**
 * Loading the face database at start-up (test.py, lines 9-43).
 *
 * The script lists the database folder; every entry that is a directory is a
 * person, named after the directory. Every file in it whose name ends in
 * ".jpg" or ".png" is handed to the face library; when the library finds at
 * least one face, the first face's encoding is appended to `encodings` and the
 * person's name to `names`. When nothing was loaded, the script exits before
 * recognition starts.
 *
 * The folder listings and the encodings the face library finds in each image
 * are inputs here: a listing is a sequence of entries in the order the
 * operating system returns them.
 */
module Enrollment {

  /** A face encoding computed by the face library: an opaque numeric vector. */
  type Encoding = seq<real>

  /** A file inside a person's folder, with every face encoding found in it. */
  datatype ImageFile = ImageFile(fileName: string, faces: seq<Encoding>)

  /** An entry of the database folder; `files` is its listing when it is a directory. */
  datatype FolderEntry = FolderEntry(name: string, isDir: bool, files: seq<ImageFile>)

  /** One enrolled reference: the person's name and one encoding of their face. */
  datatype Sample = Sample(name: string, encoding: Encoding)

  /** Python's `str.endswith`: case-sensitive suffix test. */
  predicate EndsWith(s: string, suffix: string)
    ensures EndsWith(s, suffix) <==> exists stem :: s == stem + suffix
  {
    |suffix| <= |s| && s == s[..|s| - |suffix|] + suffix
  }

  /** The file-name filter of the inner loop: the name ends in ".jpg" or in ".png". */
  predicate IsImageName(fileName: string)
    ensures IsImageName(fileName) <==> exists stem :: fileName == stem + ".jpg" || fileName == stem + ".png"
  {
    EndsWith(fileName, ".jpg") || EndsWith(fileName, ".png")
  }

  /** A file that contributes a reference: an image in which a face was found. */
  predicate Accepted(f: ImageFile) {
    IsImageName(f.fileName) && f.faces != []
  }

  /** What one file contributes: the first face of an accepted image, nothing otherwise. */
  function FileSamples(person: string, f: ImageFile): (r: seq<Sample>)
    ensures |r| <= 1
    ensures r != [] <==> Accepted(f)
    ensures Accepted(f) ==> r[0] == Sample(person, f.faces[0])
  {
    if Accepted(f) then [Sample(person, f.faces[0])] else []
  }

  /** What a person's folder contributes, file by file in listing order. */
  function FolderSamples(person: string, files: seq<ImageFile>): (r: seq<Sample>)
    ensures |r| <= |files|
    ensures forall k :: 0 <= k < |r| ==> r[k].name == person
  {
    if files == [] then []
    else FileSamples(person, files[0]) + FolderSamples(person, files[1..])
  }

  /** What one entry of the database folder contributes: nothing unless it is a directory. */
  function EntrySamples(e: FolderEntry): (r: seq<Sample>)
    ensures !e.isDir ==> r == []
    ensures |r| <= |e.files|
    ensures forall s :: s in r ==> s.name == e.name
  {
    if e.isDir then FolderSamples(e.name, e.files) else []
  }

  /** How many files the directories of the database list (entries that are not directories list none). */
  function ListedFiles(db: seq<FolderEntry>): nat {
    if db == [] then 0
    else (if db[0].isDir then |db[0].files| else 0) + ListedFiles(db[1..])
  }

  /**
   * Every reference the database yields, in the order the script appends
   * them: at most one per file listed in a directory.
   */
  function Samples(db: seq<FolderEntry>): (r: seq<Sample>)
    ensures |r| <= ListedFiles(db)
  {
    if db == [] then []
    else EntrySamples(db[0]) + Samples(db[1..])
  }

  /** The two parallel lists hold exactly the names and encodings of `ss`, index by index. */
  predicate Tracks(encodings: seq<Encoding>, names: seq<string>, ss: seq<Sample>) {
    && |encodings| == |ss|
    && |names| == |ss|
    && forall k :: 0 <= k < |ss| ==> encodings[k] == ss[k].encoding && names[k] == ss[k].name
  }

  /** File `f` of entry `d` is an accepted image inside a directory. */
  predicate AcceptedAt(db: seq<FolderEntry>, d: int, f: int) {
    && 0 <= d < |db|
    && db[d].isDir
    && 0 <= f < |db[d].files|
    && Accepted(db[d].files[f])
  }

  /**
   * The nested enrollment loop: `encodings` and `names` grow in lockstep, and
   * together they are exactly the references the database yields.
   */
  method LoadFaceDatabase(db: seq<FolderEntry>) returns (encodings: seq<Encoding>, names: seq<string>)
    ensures Tracks(encodings, names, Samples(db))
  {
    encodings, names := [], [];
    ghost var loaded: seq<Sample> := [];
    for i := 0 to |db|
      invariant loaded == Samples(db[..i])
      invariant Tracks(encodings, names, loaded)
    {
      var entry := db[i];
      if entry.isDir {
        for j := 0 to |entry.files|
          invariant loaded == Samples(db[..i]) + FolderSamples(entry.name, entry.files[..j])
          invariant Tracks(encodings, names, loaded)
        {
          var file := entry.files[j];
          ghost var before := loaded;
          if IsImageName(file.fileName) {
            var faceEncodings := file.faces;
            if faceEncodings != [] {
              TracksSnoc(encodings, names, loaded, Sample(entry.name, faceEncodings[0]));
              encodings := encodings + [faceEncodings[0]];
              names := names + [entry.name];
              loaded := loaded + [Sample(entry.name, faceEncodings[0])];
            }
          }
          assert loaded == Samples(db[..i]) + FolderSamples(entry.name, entry.files[..j + 1]) by {
            assert loaded == before + FileSamples(entry.name, file);
            FolderSamplesSnoc(entry.name, entry.files, j);
            Assoc(Samples(db[..i]), FolderSamples(entry.name, entry.files[..j]), FileSamples(entry.name, file));
          }
        }
        assert entry.files[..|entry.files|] == entry.files;
      }
      assert loaded == Samples(db[..i + 1]) by {
        assert loaded == Samples(db[..i]) + EntrySamples(entry);
        SamplesSnoc(db, i);
      }
    }
    assert db[..|db|] == db;
  }

  /** Appending one reference to both lists keeps them in lockstep with the references. */
  lemma {:induction false} TracksSnoc(encodings: seq<Encoding>, names: seq<string>, ss: seq<Sample>, x: Sample)
    requires Tracks(encodings, names, ss)
    ensures Tracks(encodings + [x.encoding], names + [x.name], ss + [x])
  {
  }

  lemma {:induction false} Assoc<T>(a: seq<T>, b: seq<T>, c: seq<T>)
    ensures a + (b + c) == (a + b) + c
  {
  }

  /**
   * Loading followed by the check of `len(encodings) == 0`: the script goes on
   * to recognition exactly when some directory holds an accepted image, and
   * otherwise stops.
   */
  method Enroll(db: seq<FolderEntry>) returns (encodings: seq<Encoding>, names: seq<string>, starts: bool)
    ensures Tracks(encodings, names, Samples(db))
    ensures starts <==> exists d, f :: AcceptedAt(db, d, f)
    ensures starts <==> |encodings| != 0
  {
    encodings, names := LoadFaceDatabase(db);
    RecognitionStartsIff(db, encodings, names);
    starts := |encodings| != 0;
  }

  lemma {:induction false} FolderSamplesAppend(person: string, a: seq<ImageFile>, b: seq<ImageFile>)
    ensures FolderSamples(person, a + b) == FolderSamples(person, a) + FolderSamples(person, b)
  {
    if a == [] {
      assert a + b == b;
    } else {
      assert (a + b)[1..] == a[1..] + b;
      FolderSamplesAppend(person, a[1..], b);
    }
  }

  lemma {:induction false} SamplesAppend(a: seq<FolderEntry>, b: seq<FolderEntry>)
    ensures Samples(a + b) == Samples(a) + Samples(b)
  {
    if a == [] {
      assert a + b == b;
    } else {
      assert (a + b)[1..] == a[1..] + b;
      SamplesAppend(a[1..], b);
    }
  }

  lemma {:induction false} FolderSamplesOfOne(person: string, f: ImageFile)
    ensures FolderSamples(person, [f]) == FileSamples(person, f)
  {
    assert [f][1..] == [];
  }

  lemma {:induction false} SamplesOfOne(e: FolderEntry)
    ensures Samples([e]) == EntrySamples(e)
  {
    assert [e][1..] == [];
  }

  /** One more step of the inner loop: the file at `j` appends its own contribution. */
  lemma {:induction false} FolderSamplesSnoc(person: string, files: seq<ImageFile>, j: int)
    requires 0 <= j < |files|
    ensures FolderSamples(person, files[..j + 1]) == FolderSamples(person, files[..j]) + FileSamples(person, files[j])
  {
    assert files[..j + 1] == files[..j] + [files[j]];
    FolderSamplesAppend(person, files[..j], [files[j]]);
    FolderSamplesOfOne(person, files[j]);
  }

  /** One more step of the outer loop: the entry at `i` appends its own contribution. */
  lemma {:induction false} SamplesSnoc(db: seq<FolderEntry>, i: int)
    requires 0 <= i < |db|
    ensures Samples(db[..i + 1]) == Samples(db[..i]) + EntrySamples(db[i])
  {
    assert db[..i + 1] == db[..i] + [db[i]];
    SamplesAppend(db[..i], [db[i]]);
    SamplesOfOne(db[i]);
  }

  /** The references of a database split around entry `d`. */
  lemma {:induction false} SamplesAround(db: seq<FolderEntry>, d: int)
    requires 0 <= d < |db|
    ensures Samples(db) == Samples(db[..d]) + (EntrySamples(db[d]) + Samples(db[d + 1..]))
  {
    var rest := db[d..];
    assert db == db[..d] + rest;
    SamplesAppend(db[..d], rest);
    assert rest[0] == db[d] && rest[1..] == db[d + 1..];
  }

  /** Every reference comes from an accepted image of its folder and is that image's first face. */
  lemma {:induction false} FolderSampleProvenance(person: string, files: seq<ImageFile>, k: int)
    requires 0 <= k < |FolderSamples(person, files)|
    ensures exists f :: 0 <= f < |files| && Accepted(files[f])
                        && FolderSamples(person, files)[k] == Sample(person, files[f].faces[0])
  {
    var head := FileSamples(person, files[0]);
    if k < |head| {
      assert Accepted(files[0]);
    } else {
      var rest := files[1..];
      FolderSampleProvenance(person, rest, k - |head|);
      var f :| 0 <= f < |rest| && Accepted(rest[f])
               && FolderSamples(person, rest)[k - |head|] == Sample(person, rest[f].faces[0]);
      assert rest[f] == files[f + 1];
    }
  }

  /**
   * Provenance: every recorded name is the name of a directory of the database,
   * and the encoding beside it is the first face found in one of that
   * directory's accepted images.
   */
  lemma {:induction false} SampleProvenance(db: seq<FolderEntry>, k: int)
    requires 0 <= k < |Samples(db)|
    ensures exists d, f :: AcceptedAt(db, d, f)
                           && Samples(db)[k] == Sample(db[d].name, db[d].files[f].faces[0])
  {
    var head := EntrySamples(db[0]);
    if k < |head| {
      FolderSampleProvenance(db[0].name, db[0].files, k);
      var f :| 0 <= f < |db[0].files| && Accepted(db[0].files[f])
               && head[k] == Sample(db[0].name, db[0].files[f].faces[0]);
      assert AcceptedAt(db, 0, f);
    } else {
      var rest := db[1..];
      SampleProvenance(rest, k - |head|);
      var d, f :| AcceptedAt(rest, d, f)
                  && Samples(rest)[k - |head|] == Sample(rest[d].name, rest[d].files[f].faces[0]);
      assert rest[d] == db[d + 1];
      assert AcceptedAt(db, d + 1, f);
    }
  }

  /** Completeness: the first face of every accepted image in a directory is enrolled under that directory's name. */
  lemma {:induction false} SampleCompleteness(db: seq<FolderEntry>, d: int, f: int)
    requires AcceptedAt(db, d, f)
    ensures Sample(db[d].name, db[d].files[f].faces[0]) in Samples(db)
  {
    var name, files := db[d].name, db[d].files;
    var x := Sample(name, files[f].faces[0]);
    assert x in FolderSamples(name, files[f..]) by {
      assert files[f..][0] == files[f];
    }
    assert x in FolderSamples(name, files) by {
      FolderSamplesSplit(name, files, f);
    }
    SamplesAround(db, d);
  }

  /**
   * Recognition starts exactly when the database holds an accepted image inside
   * a directory; otherwise the script stops after loading.
   */
  lemma {:induction false} RecognitionStartsIff(db: seq<FolderEntry>, encodings: seq<Encoding>, names: seq<string>)
    requires Tracks(encodings, names, Samples(db))
    ensures |encodings| != 0 <==> exists d, f :: AcceptedAt(db, d, f)
  {
    if |encodings| != 0 {
      SampleProvenance(db, 0);
    }
    if exists d, f :: AcceptedAt(db, d, f) {
      var d, f :| AcceptedAt(db, d, f);
      SampleCompleteness(db, d, f);
    }
  }

  /** `s` with `x` inserted so that it lands at index `p`. */
  function InsertAt<T>(s: seq<T>, p: int, x: T): (r: seq<T>)
    requires 0 <= p <= |s|
  {
    s[..p] + ([x] + s[p..])
  }

  /** The references of a database split at any position. */
  lemma {:induction false} SamplesSplit(db: seq<FolderEntry>, p: int)
    requires 0 <= p <= |db|
    ensures Samples(db) == Samples(db[..p]) + Samples(db[p..])
  {
    assert db == db[..p] + db[p..];
    SamplesAppend(db[..p], db[p..]);
  }

  /** A folder's references split at any position. */
  lemma {:induction false} FolderSamplesSplit(person: string, files: seq<ImageFile>, q: int)
    requires 0 <= q <= |files|
    ensures FolderSamples(person, files) == FolderSamples(person, files[..q]) + FolderSamples(person, files[q..])
  {
    assert files == files[..q] + files[q..];
    FolderSamplesAppend(person, files[..q], files[q..]);
  }

  /** Listing one more entry at `p` inserts that entry's references at the matching place. */
  lemma {:induction false} SamplesInsert(db: seq<FolderEntry>, p: int, e: FolderEntry)
    requires 0 <= p <= |db|
    ensures Samples(InsertAt(db, p, e)) == Samples(db[..p]) + (EntrySamples(e) + Samples(db[p..]))
  {
    var rest := [e] + db[p..];
    SamplesAppend(db[..p], rest);
    assert rest[0] == e && rest[1..] == db[p..];
  }

  /** Listing one more file at `q` inserts that file's references at the matching place. */
  lemma {:induction false} FolderSamplesInsert(person: string, files: seq<ImageFile>, q: int, f: ImageFile)
    requires 0 <= q <= |files|
    ensures FolderSamples(person, InsertAt(files, q, f))
            == FolderSamples(person, files[..q]) + (FileSamples(person, f) + FolderSamples(person, files[q..]))
  {
    var rest := [f] + files[q..];
    FolderSamplesAppend(person, files[..q], rest);
    assert rest[0] == f && rest[1..] == files[q..];
  }

  /** An entry that is not a directory contributes nothing, wherever it is listed. */
  lemma {:induction false} NonDirectoryIgnored(db: seq<FolderEntry>, p: int, e: FolderEntry)
    requires 0 <= p <= |db|
    requires !e.isDir
    ensures Samples(InsertAt(db, p, e)) == Samples(db)
  {
    SamplesInsert(db, p, e);
    SamplesSplit(db, p);
  }

  /** Replacing entry `d` replaces its references and leaves the others in place. */
  lemma {:induction false} SamplesReplace(db: seq<FolderEntry>, d: int, e: FolderEntry)
    requires 0 <= d < |db|
    ensures Samples(db[d := e]) == Samples(db[..d]) + (EntrySamples(e) + Samples(db[d + 1..]))
  {
    var db' := db[d := e];
    SamplesAround(db', d);
    assert db'[..d] == db[..d];
    assert db'[d + 1..] == db[d + 1..];
  }

  /**
   * A file that is not a ".jpg"/".png" image, or an image in which no face was
   * found, changes neither list, wherever it is listed in a person's folder.
   */
  lemma {:induction false} IgnoredFileChangesNothing(db: seq<FolderEntry>, d: int, q: int, f: ImageFile)
    requires 0 <= d < |db|
    requires 0 <= q <= |db[d].files|
    requires !Accepted(f)
    ensures Samples(db[d := FolderEntry(db[d].name, db[d].isDir, InsertAt(db[d].files, q, f))]) == Samples(db)
  {
    var e := FolderEntry(db[d].name, db[d].isDir, InsertAt(db[d].files, q, f));
    FolderIgnoresFile(db[d].name, db[d].files, q, f);
    SamplesAround(db, d);
    SamplesReplace(db, d, e);
  }

  /** Within one folder, a file that is not accepted contributes nothing wherever it is listed. */
  lemma {:induction false} FolderIgnoresFile(person: string, files: seq<ImageFile>, q: int, f: ImageFile)
    requires 0 <= q <= |files|
    requires !Accepted(f)
    ensures FolderSamples(person, InsertAt(files, q, f)) == FolderSamples(person, files)
  {
    FolderSamplesInsert(person, files, q, f);
    FolderSamplesSplit(person, files, q);
  }

  /** Regrouping the two splits of a database's references around the place of one image. */
  lemma {:induction false} Regroup<T>(a: seq<T>, b: seq<T>, c: seq<T>, z: seq<T>, x: T)
    ensures a + ((b + c) + z) == (a + b) + (c + z)
    ensures a + ((b + ([x] + c)) + z) == (a + b) + ([x] + (c + z))
  {
  }

  /**
   * An accepted image in a directory adds exactly one reference, its first
   * face under the directory's name, at the place of the image in the
   * listing: the references before it (those of the earlier directories and
   * of the earlier files of its folder) and after it are unchanged. Several
   * faces in the image still add only that one.
   */
  lemma {:induction false} AcceptedFileAddsOne(db: seq<FolderEntry>, d: int, q: int, f: ImageFile)
    requires 0 <= d < |db| && db[d].isDir
    requires 0 <= q <= |db[d].files|
    requires Accepted(f)
    ensures Samples(db) == (Samples(db[..d]) + FolderSamples(db[d].name, db[d].files[..q]))
                           + (FolderSamples(db[d].name, db[d].files[q..]) + Samples(db[d + 1..]))
    ensures Samples(db[d := FolderEntry(db[d].name, db[d].isDir, InsertAt(db[d].files, q, f))])
            == (Samples(db[..d]) + FolderSamples(db[d].name, db[d].files[..q]))
               + ([Sample(db[d].name, f.faces[0])] + (FolderSamples(db[d].name, db[d].files[q..]) + Samples(db[d + 1..])))
  {
    var name, files := db[d].name, db[d].files;
    var e := FolderEntry(name, db[d].isDir, InsertAt(files, q, f));
    var a, b, c, z := Samples(db[..d]), FolderSamples(name, files[..q]), FolderSamples(name, files[q..]), Samples(db[d + 1..]);
    var x := Sample(name, f.faces[0]);
    Regroup(a, b, c, z, x);
    assert Samples(db) == a + ((b + c) + z) by {
      FolderSamplesSplit(name, files, q);
      SamplesAround(db, d);
    }
    assert EntrySamples(e) == b + ([x] + c) by {
      FolderSamplesInsert(name, files, q, f);
    }
    SamplesReplace(db, d, e);
  }
}
