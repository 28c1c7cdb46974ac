/**
 The application state of src/lib.rs: the result of the drive query, the
 list of drive labels shown in the drop-down and the selected entry; and the
 formatter that turns a drive query into those labels.
 */
module App {
  import opened Drives
  import DriveProperties

  /** The `Option` of the source. */
  datatype Option<+T> = None | Some(value: T)

  /** `format!("{l}:/")`: the label under which drive `l` is listed; it reads back as `l`. */
  function DriveLabel(l: char): (text: string)
    ensures LabelDrive(text) == Some(l)
  {
    [l, ':', '/']
  }

  /** The drive a string names when it has the form "L:/", and None otherwise. */
  function LabelDrive(text: string): Option<char> {
    if |text| == 3 && text[1..] == ":/" then Some(text[0]) else None
  }

  /** A string that names a drive is that drive's label. */
  lemma LabelDriveInverse(text: string, l: char)
    requires LabelDrive(text) == Some(l)
    ensures text == DriveLabel(l)
  {
    assert text == [text[0]] + text[1..];
  }

  /** The labels of a set of drives. */
  ghost function LabelSet(drives: set<char>): set<string> {
    set l | l in drives :: DriveLabel(l)
  }

  /**
   `labels` is what the formatter may produce for `res`: nothing for an
   error, and for a set of drives the label of every drive exactly once, in
   whatever order the set is iterated.
   */
  ghost predicate Labelling(res: Result<set<char>, GetLogicalDrivesError>, labels: seq<string>) {
    match res
    case Err(_) => labels == []
    case Ok(drives) => multiset(labels) == multiset(LabelSet(drives))
  }

  /** Different drives have different labels. */
  lemma DriveLabelInjective(a: char, b: char)
    ensures DriveLabel(a) == DriveLabel(b) <==> a == b
  {
    if DriveLabel(a) == DriveLabel(b) {
      assert DriveLabel(a)[0] == a && DriveLabel(b)[0] == b;
    }
  }

  /** Adding a drive adds its label, which was not there before. */
  lemma LabelSetAdd(done: set<char>, l: char)
    requires l !in done
    ensures LabelSet(done + {l}) == LabelSet(done) + {DriveLabel(l)}
    ensures DriveLabel(l) !in LabelSet(done)
  {
  }

  /** Pushing the label of a new drive keeps the labels those of the drives done. */
  lemma PushLabel(output: seq<string>, done: set<char>, l: char)
    requires multiset(output) == multiset(LabelSet(done)) && l !in done
    ensures multiset(output + [DriveLabel(l)]) == multiset(LabelSet(done + {l}))
  {
    LabelSetAdd(done, l);
  }

  /** A set of drives has as many labels as drives. */
  lemma {:induction false} LabelSetSize(drives: set<char>)
    ensures |LabelSet(drives)| == |drives|
    decreases |drives|
  {
    if drives != {} {
      var l :| l in drives;
      var rest := drives - {l};
      LabelSetSize(rest);
      LabelSetAdd(rest, l);
      assert drives == rest + {l};
    }
  }

  class MyApp {
    /** The drive query, or why it failed. */
    var drives: Result<set<char>, GetLogicalDrivesError>
    /** The labels listed in the drop-down. */
    var driveLetters: seq<string>
    /** The index in `driveLetters` of the selected drive, if any. */
    var selectedDrive: Option<nat>

    /**
     `MyApp::new`. The source queries the drives twice, once for `drives`
     and once for the labels, so the two masks and error codes are separate
     parameters.
     */
    constructor (mask: bv32, lastError: u32, labelMask: bv32, labelLastError: u32)
      ensures drives == GetDrives(mask, lastError)
      ensures Labelling(GetDrives(labelMask, labelLastError), driveLetters)
      ensures selectedDrive == None
    {
      var labels := ConvertDrivesToDriveLetters(GetDrives(labelMask, labelLastError));
      drives := GetDrives(mask, lastError);
      driveLetters := labels;
      selectedDrive := None;
    }

    /**
     `convert_drives_to_drive_letters`: one label per drive, pushed in the
     order the set is iterated (chosen arbitrarily here, as a `HashSet`
     leaves it unspecified); no labels for an error.
     */
    static method ConvertDrivesToDriveLetters(res: Result<set<char>, GetLogicalDrivesError>)
      returns (output: seq<string>)
      ensures Labelling(res, output)
      ensures res.Err? ==> output == []
      ensures res.Ok? ==> |output| == |res.value|
    {
      output := [];
      if res.Ok? {
        var remaining := res.value;
        ghost var done: set<char> := {};
        while remaining != {}
          invariant done + remaining == res.value && done !! remaining
          invariant multiset(output) == multiset(LabelSet(done))
          decreases |remaining|
        {
          var l :| l in remaining;
          PushLabel(output, done, l);
          output := output + [DriveLabel(l)];
          done := done + {l};
          remaining := remaining - {l};
        }
        assert done == res.value;
        LabelSetSize(res.value);
        assert |output| == |multiset(output)| == |LabelSet(res.value)|;
      }
    }
  }

  /** Each label listed for a set of drives is the label of one of those drives. */
  lemma LabelOfSomeDrive(drives: set<char>, labels: seq<string>, i: nat)
    requires Labelling(Ok(drives), labels) && i < |labels|
    ensures |labels[i]| == 3 && labels[i][0] in drives && labels[i] == DriveLabel(labels[i][0])
  {
    assert labels[i] in multiset(labels);
    var l :| l in drives && labels[i] == DriveLabel(l);
  }

  /** The first characters of a sequence of non-empty strings. */
  function FirstChars(labels: seq<string>): seq<char>
    requires forall i :: 0 <= i < |labels| ==> labels[i] != []
  {
    seq(|labels|, i requires 0 <= i < |labels| => labels[i][0])
  }

  /** The first characters of strings with one more at the end end with its first character. */
  lemma FirstCharsAppend(prefix: seq<string>, text: string)
    requires forall i :: 0 <= i < |prefix| ==> prefix[i] != []
    requires text != []
    ensures FirstChars(prefix + [text]) == FirstChars(prefix) + [text[0]]
  {
  }

  /** Removing the same last element from a sequence and a set that match as multisets. */
  lemma DropLastLabel(prefix: seq<string>, x: string, labels: set<string>)
    requires x !in labels && multiset(prefix + [x]) == multiset(labels + {x})
    ensures multiset(prefix) == multiset(labels)
  {
    assert multiset(prefix + [x]) == multiset(prefix) + multiset{x};
    assert multiset(labels + {x}) == multiset(labels) + multiset{x};
    forall y ensures multiset(prefix)[y] == multiset(labels)[y] {
      assert (multiset(prefix) + multiset{x})[y] == (multiset(labels) + multiset{x})[y];
    }
  }

  /**
   The labels listed for a set of drives start with exactly those drive
   letters, each once: their first characters, taken as a multiset, are the set.
   */
  lemma {:induction false} FirstCharsAreDrives(drives: set<char>, labels: seq<string>)
    requires Labelling(Ok(drives), labels)
    ensures forall i :: 0 <= i < |labels| ==> labels[i] != []
    ensures multiset(FirstChars(labels)) == multiset(drives)
    decreases |labels|
  {
    forall i | 0 <= i < |labels| ensures labels[i] != [] {
      LabelOfSomeDrive(drives, labels, i);
    }
    if labels == [] {
      LabelSetSize(drives);
    } else {
      var n := |labels| - 1;
      var prefix := labels[..n];
      LabelOfSomeDrive(drives, labels, n);
      var l := labels[n][0];
      var rest := drives - {l};
      assert labels == prefix + [DriveLabel(l)];
      assert drives == rest + {l};
      LabelSetAdd(rest, l);
      DropLastLabel(prefix, DriveLabel(l), LabelSet(rest));
      FirstCharsAreDrives(rest, prefix);
      FirstCharsAppend(prefix, DriveLabel(l));
    }
  }

  /** Every label of a successful query is a drive letter 'A'..'Z' followed by ":/". */
  lemma LabelsAreDriveLetters(mask: bv32, lastError: u32, labels: seq<string>, i: nat)
    requires Labelling(GetDrives(mask, lastError), labels)
    requires i < |labels|
    ensures |labels[i]| == 3 && IsDriveLetter(labels[i][0]) && labels[i][1..] == ":/"
  {
    var res := GetDrives(mask, lastError);
    assert labels[i] in multiset(labels);
    var l :| l in res.value && labels[i] == DriveLabel(l);
    DriveSetLetters(mask, l);
  }

  /** Every member of the set a mask stands for is a drive letter. */
  lemma DriveSetLetters(mask: bv32, l: char)
    requires l in DriveSet(mask)
    ensures IsDriveLetter(l)
  {
  }

  /** The labels determine the set of drives they were made from. */
  lemma LabellingDeterminesDrives(d1: set<char>, d2: set<char>, labels: seq<string>)
    requires Labelling(Ok(d1), labels) && Labelling(Ok(d2), labels)
    ensures d1 == d2
  {
    forall l | l in d1 ensures l in d2 {
      assert DriveLabel(l) in multiset(labels);
      var k :| k in d2 && DriveLabel(k) == DriveLabel(l);
      DriveLabelInjective(k, l);
    }
    forall l | l in d2 ensures l in d1 {
      assert DriveLabel(l) in multiset(labels);
      var k :| k in d1 && DriveLabel(k) == DriveLabel(l);
      DriveLabelInjective(k, l);
    }
  }

  /** A lone drive C has the lone label "C:/". */
  lemma DriveCLabels(labels: seq<string>)
    requires Labelling(Ok({'C'}), labels)
    ensures labels == ["C:/"]
  {
    assert LabelSet({'C'}) == {"C:/"};
    assert |labels| == |multiset(labels)| == 1;
    assert labels[0] in multiset(labels);
  }

  /** An application started while exactly drive C is mapped lists just "C:/". */
  method StartWithDriveC(lastError: u32) returns (app: MyApp)
    ensures app.drives == Ok({'C'}) && app.driveLetters == ["C:/"] && app.selectedDrive == None
  {
    app := new MyApp(4, lastError, 4, lastError);
    DriveProperties.MaskFourIsDriveC(lastError);
    DriveCLabels(app.driveLetters);
  }
}
