/** Filenames and paths of the upload service: splitting on a separator the way
    Python's `str.split` does, the extension of a filename, the whitelist test,
    and the path of a stored file inside the upload directory. */
module Names {

  /** The extensions an upload may carry; compared exactly, with no case folding. */
  const AllowedExtensions: set<string> := {"txt", "pdf", "png", "jpg", "jpeg", "gif", "mp4", "mkv"}

  /** `s.split(sep)` for a one-character separator: the pieces between
      consecutive separators, in order. There is always at least one piece. */
  function Split(s: string, sep: char): (parts: seq<string>)
    ensures |parts| >= 1
    decreases |s|
  {
    if |s| == 0 then [""]
    else
      var rest := Split(s[1..], sep);
      if s[0] == sep then [""] + rest
      else [[s[0]] + rest[0]] + rest[1..]
  }

  /** No piece of a split contains the separator. */
  lemma {:induction false} SplitPiecesLackSeparator(s: string, sep: char)
    ensures forall i :: 0 <= i < |Split(s, sep)| ==> sep !in Split(s, sep)[i]
  {
    if |s| > 0 {
      SplitPiecesLackSeparator(s[1..], sep);
      var rest := Split(s[1..], sep);
      assert sep !in rest[0];
      var parts := Split(s, sep);
      forall i | 0 <= i < |parts|
        ensures sep !in parts[i]
      {
        if i > 0 {
          assert parts[i] == rest[if s[0] == sep then i - 1 else i];
        }
      }
    }
  }

  /** `sep.join(parts)`: the pieces with one separator between neighbours. */
  function Join(parts: seq<string>, sep: char): string
    requires |parts| >= 1
  {
    if |parts| == 1 then parts[0] else parts[0] + [sep] + Join(parts[1..], sep)
  }

  /** Joining the pieces of a split gives back the original string. */
  lemma {:induction false} SplitThenJoin(s: string, sep: char)
    ensures Join(Split(s, sep), sep) == s
  {
    if |s| > 0 {
      var rest := Split(s[1..], sep);
      SplitThenJoin(s[1..], sep);
      if s[0] != sep && |rest| > 1 {
        var parts := [[s[0]] + rest[0]] + rest[1..];
        assert parts[1..] == rest[1..];
      }
    }
  }

  /** Splitting a string that has no separator gives that string alone. */
  lemma {:induction false} SplitWithoutSeparator(s: string, sep: char)
    requires sep !in s
    ensures Split(s, sep) == [s]
  {
    if |s| > 0 {
      SplitWithoutSeparator(s[1..], sep);
      assert [s[0]] + s[1..] == s;
    }
  }

  /** A separator-free first piece followed by a separator splits off as one piece. */
  lemma {:induction false} SplitAfterPiece(a: string, sep: char, b: string)
    requires sep !in a
    ensures Split(a + [sep] + b, sep) == [a] + Split(b, sep)
  {
    var s := a + [sep] + b;
    if |a| == 0 {
      assert s[1..] == b;
    } else {
      assert s[1..] == a[1..] + [sep] + b;
      SplitAfterPiece(a[1..], sep, b);
      assert [a[0]] + a[1..] == a;
    }
  }

  /** Splitting a join of separator-free pieces gives back the pieces. */
  lemma {:induction false} JoinThenSplit(parts: seq<string>, sep: char)
    requires |parts| >= 1
    requires forall i :: 0 <= i < |parts| ==> sep !in parts[i]
    ensures Split(Join(parts, sep), sep) == parts
  {
    if |parts| == 1 {
      SplitWithoutSeparator(parts[0], sep);
    } else {
      JoinThenSplit(parts[1..], sep);
      SplitAfterPiece(parts[0], sep, Join(parts[1..], sep));
    }
  }

  /** Join puts the last piece after the join of all the others. */
  lemma {:induction false} JoinLast(parts: seq<string>, sep: char)
    requires |parts| >= 2
    ensures Join(parts, sep) == Join(parts[..|parts| - 1], sep) + [sep] + parts[|parts| - 1]
  {
    if |parts| > 2 {
      JoinLast(parts[1..], sep);
      assert parts[1..][..|parts| - 2] == parts[..|parts| - 1][1..];
    }
  }

  /** `s.split(sep)[-1]`: the last piece of the split. */
  function LastSegment(s: string, sep: char): string
  {
    var parts := Split(s, sep);
    parts[|parts| - 1]
  }

  /** The last segment is the text after the final separator: it holds no
      separator, ends the string, and is either the whole string (exactly when
      there is no separator) or preceded by a separator. */
  lemma LastSegmentIsAfterFinalSeparator(s: string, sep: char)
    ensures var seg := LastSegment(s, sep);
      && sep !in seg
      && |seg| <= |s|
      && s[|s| - |seg|..] == seg
      && (|seg| == |s| <==> sep !in s)
      && (|seg| < |s| ==> s[|s| - |seg| - 1] == sep)
  {
    var parts := Split(s, sep);
    var seg := parts[|parts| - 1];
    SplitThenJoin(s, sep);
    SplitPiecesLackSeparator(s, sep);
    if |parts| >= 2 {
      JoinLast(parts, sep);
      var front := Join(parts[..|parts| - 1], sep);
      assert s == front + [sep] + seg;
      assert s[|s| - |seg| - 1] == sep;
      assert sep in s;
    }
  }

  /** Splitting at a separator splits the text on each side of it on its own. */
  lemma {:induction false} SplitAt(s: string, sep: char, i: nat)
    requires i < |s| && s[i] == sep
    ensures Split(s, sep) == Split(s[..i], sep) + Split(s[i + 1..], sep)
  {
    if i > 0 {
      var pre := s[..i];
      SplitAt(s[1..], sep, i - 1);
      assert s[1..][..i - 1] == pre[1..];
      assert s[1..][i..] == s[i + 1..];
      assert pre[0] == s[0];
      var front, back := Split(pre[1..], sep), Split(s[i + 1..], sep);
      if s[0] != sep {
        assert (front + back)[0] == front[0];
        assert (front + back)[1..] == front[1..] + back;
      }
    }
  }

  /** Whatever precedes the final separator, the last segment is what follows it. */
  lemma LastSegmentAfter(prefix: string, sep: char, seg: string)
    requires sep !in seg
    ensures LastSegment(prefix + [sep] + seg, sep) == seg
  {
    var s := prefix + [sep] + seg;
    assert s[..|prefix|] == prefix && s[|prefix| + 1..] == seg;
    SplitAt(s, sep, |prefix|);
    SplitWithoutSeparator(seg, sep);
  }

  /** The extension of a filename: `filename.split(".")[-1]`. */
  function Extension(filename: string): string
  {
    LastSegment(filename, '.')
  }

  /** The whitelist test applied before anything is written. */
  predicate IsAllowed(filename: string)
  {
    Extension(filename) in AllowedExtensions
  }

  /** A filename is accepted exactly when it is itself an allowed token with
      no dot in it, or when the text after its last dot is an allowed token. */
  lemma AllowedIff(filename: string)
    ensures IsAllowed(filename) <==>
      || ('.' !in filename && filename in AllowedExtensions)
      || (exists i :: 0 <= i < |filename| && filename[i] == '.' && '.' !in filename[i + 1..]
                      && filename[i + 1..] in AllowedExtensions)
  {
    var e := Extension(filename);
    LastSegmentIsAfterFinalSeparator(filename, '.');
    if |e| < |filename| {
      var i := |filename| - |e| - 1;
      assert filename[i + 1..] == e;
    }
    if i :| 0 <= i < |filename| && filename[i] == '.' && '.' !in filename[i + 1..] {
      assert filename == filename[..i] + ['.'] + filename[i + 1..];
      LastSegmentAfter(filename[..i], '.', filename[i + 1..]);
    }
  }

  /** A filename without a dot is its own extension. */
  lemma ExtensionWithoutDot(filename: string)
    requires '.' !in filename
    ensures Extension(filename) == filename
  {
    SplitWithoutSeparator(filename, '.');
  }

  /** A filename ending in a dot has the empty extension and is always rejected. */
  lemma TrailingDotRejected(filename: string)
    requires |filename| > 0 && filename[|filename| - 1] == '.'
    ensures Extension(filename) == ""
    ensures !IsAllowed(filename)
  {
    LastSegmentIsAfterFinalSeparator(filename, '.');
  }

  /** A name from the service's tests, accepted. */
  lemma AcceptedJpeg()
    ensures IsAllowed("file7.jpeg")
  {
    assert "file7.jpeg" == "file7" + ['.'] + "jpeg";
    LastSegmentAfter("file7", '.', "jpeg");
  }

  /** Only the text after the last dot counts. */
  lemma AcceptedAfterLastDot()
    ensures IsAllowed("archive.old.pdf")
  {
    assert "archive.old.pdf" == "archive.old" + ['.'] + "pdf";
    LastSegmentAfter("archive.old", '.', "pdf");
  }

  /** The name the service's tests expect to be refused. */
  lemma RejectedUnknownExtension()
    ensures Extension("test_invalid.extension") == "extension"
    ensures !IsAllowed("test_invalid.extension")
  {
    assert "test_invalid.extension" == "test_invalid" + ['.'] + "extension";
    LastSegmentAfter("test_invalid", '.', "extension");
    assert forall x :: x in AllowedExtensions ==> |x| <= 4;
  }

  /** No case folding: an upper-case spelling of an allowed token is refused. */
  lemma RejectedUpperCase()
    ensures !IsAllowed("photo.PNG")
  {
    assert "photo.PNG" == "photo" + ['.'] + "PNG";
    LastSegmentAfter("photo", '.', "PNG");
    assert "PNG"[0] == 'P';
    assert forall x :: x in AllowedExtensions ==> |x| > 0 && x[0] != 'P';
  }

  /** A name without a dot is refused unless it is itself an allowed token. */
  lemma DotlessNames()
    ensures !IsAllowed("noext")
    ensures IsAllowed("txt")
  {
    ExtensionWithoutDot("noext");
    ExtensionWithoutDot("txt");
  }

  /** `str(directory / name)` for a plain name: the directory, a slash, the name. */
  function PathJoin(directory: string, name: string): string
  {
    directory + "/" + name
  }

  /** `Path(p).name`: the final component of a slash-separated path. */
  function PathName(path: string): string
  {
    LastSegment(path, '/')
  }

  /** The final component of a stored file's location is its filename. The
      names `""` and `"."` are excluded: for them `directory / name` is the
      directory itself. */
  lemma PathNameOfJoin(directory: string, name: string)
    requires name != "" && name != "." && '/' !in name
    ensures PathName(PathJoin(directory, name)) == name
  {
    LastSegmentAfter(directory, '/', name);
  }
}
