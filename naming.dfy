/**
  The names a file is stored under. Both revisions derive
  `safe_filename = file.name.replace(" ", "_")` for the temporary copy and
  the stage upload, and record the stage location of every chunk as
  `f"@{stage_name}/{safe_filename}"`. The chunk rows' RELATIVE_PATH and the
  metadata row keep the original, unsanitised name.
*/
module Naming {

  /** The stage the upload goes to when the caller names none. */
  const DefaultStage: string := "DOCS"

  /** `name.replace(" ", "_")`. */
  function SafeFilename(name: string): (safe: string)
    ensures |safe| == |name|
  {
    if name == [] then []
    else [if name[0] == ' ' then '_' else name[0]] + SafeFilename(name[1..])
  }

  /** Every space becomes an underscore and every other character is kept, so no space is left. */
  lemma {:induction false} SafeFilenameReplacesSpaces(name: string)
    ensures ' ' !in SafeFilename(name)
    ensures forall i :: 0 <= i < |name| && name[i] != ' ' ==> SafeFilename(name)[i] == name[i]
    ensures forall i :: 0 <= i < |name| && name[i] == ' ' ==> SafeFilename(name)[i] == '_'
  {
    if name != [] {
      SafeFilenameReplacesSpaces(name[1..]);
      var safe := SafeFilename(name);
      assert safe[1..] == SafeFilename(name[1..]);
      forall i | 0 <= i < |name|
        ensures name[i] != ' ' ==> safe[i] == name[i]
        ensures name[i] == ' ' ==> safe[i] == '_'
      {
        if i > 0 {
          assert safe[i] == safe[1..][i - 1];
        }
      }
    }
  }

  /** Two characters that sanitising cannot tell apart. */
  predicate SameAfterSanitising(a: char, b: char) {
    a == b || ((a == ' ' || a == '_') && (b == ' ' || b == '_'))
  }

  /** Sanitising an already sanitised name changes nothing. */
  lemma SafeFilenameIdempotent(name: string)
    ensures SafeFilename(SafeFilename(name)) == SafeFilename(name)
  {
    var once := SafeFilename(name);
    SafeFilenameReplacesSpaces(name);
    SafeFilenameReplacesSpaces(once);
    assert forall i :: 0 <= i < |once| ==> once[i] != ' ';
  }

  /**
    Two names share a safe filename exactly when they have the same length
    and differ only by spaces against underscores: "a b.pdf" and "a_b.pdf"
    are uploaded to the same stage file.
  */
  lemma SafeFilenameCollides(x: string, y: string)
    ensures SafeFilename(x) == SafeFilename(y) <==>
      |x| == |y| && forall i :: 0 <= i < |x| ==> SameAfterSanitising(x[i], y[i])
  {
    var sx, sy := SafeFilename(x), SafeFilename(y);
    SafeFilenameReplacesSpaces(x);
    SafeFilenameReplacesSpaces(y);
    if sx == sy {
      forall i | 0 <= i < |x| ensures SameAfterSanitising(x[i], y[i]) {
        assert sx[i] == sy[i];
      }
    }
    if |x| == |y| && forall i :: 0 <= i < |x| ==> SameAfterSanitising(x[i], y[i]) {
      forall i | 0 <= i < |x| ensures sx[i] == sy[i] {
        assert SameAfterSanitising(x[i], y[i]);
      }
    }
  }

  /** `f"@{stage_name}/{safe_filename}"`, the FILE_URL column of every chunk row. */
  function FileUrl(stageName: string, safeFilename: string): (url: string)
    ensures |url| == |stageName| + |safeFilename| + 2
  {
    "@" + stageName + "/" + safeFilename
  }

  /** The FILE_URL is an at sign, the stage name, a slash and the safe filename, in that order. */
  lemma FileUrlParts(stageName: string, safeFilename: string)
    ensures var url := FileUrl(stageName, safeFilename);
      && |url| == |stageName| + |safeFilename| + 2
      && url[0] == '@' && url[|stageName| + 1] == '/'
      && url[1..|stageName| + 1] == stageName && url[|stageName| + 2..] == safeFilename
  {
  }

  /**
    A FILE_URL determines both the stage and the safe filename, provided the
    stage name holds no slash.
  */
  lemma FileUrlInjective(stage1: string, name1: string, stage2: string, name2: string)
    requires '/' !in stage1 && '/' !in stage2
    requires FileUrl(stage1, name1) == FileUrl(stage2, name2)
    ensures stage1 == stage2 && name1 == name2
  {
    FileUrlParts(stage1, name1);
    FileUrlParts(stage2, name2);
  }

  /** On one stage, the FILE_URL determines the safe filename. */
  lemma FileUrlSameStage(stage: string, a: string, b: string)
    ensures FileUrl(stage, a) == FileUrl(stage, b) <==> a == b
  {
    if FileUrl(stage, a) == FileUrl(stage, b) {
      FileUrlParts(stage, a);
      FileUrlParts(stage, b);
    }
  }

  /** On the default stage, FILE_URL starts with "@DOCS/" and holds no space. */
  lemma DefaultStageUrl(name: string)
    ensures FileUrl(DefaultStage, SafeFilename(name))[..6] == "@DOCS/"
    ensures ' ' !in FileUrl(DefaultStage, SafeFilename(name))
  {
    var safe := SafeFilename(name);
    SafeFilenameReplacesSpaces(name);
    assert FileUrl(DefaultStage, safe) == "@DOCS/" + safe;
  }

  /**
    Two files uploaded to the same stage get the same FILE_URL exactly when
    their names agree up to spaces against underscores.
  */
  lemma StageLocationCollides(stage: string, x: string, y: string)
    ensures FileUrl(stage, SafeFilename(x)) == FileUrl(stage, SafeFilename(y)) <==>
      |x| == |y| && forall i :: 0 <= i < |x| ==> SameAfterSanitising(x[i], y[i])
  {
    SafeFilenameCollides(x, y);
    FileUrlSameStage(stage, SafeFilename(x), SafeFilename(y));
  }
}
