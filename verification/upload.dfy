/** The upload extension check `allowed_file`. */
module Upload {
  import opened Wrappers
  import opened Text

  /** `ALLOWED_EXTENSIONS`, compared against the lower-cased extension. */
  const AllowedExtensions: set<string> := {"jpg", "jpeg", "png", "heic"}

  /**
   * A file name is accepted when it contains a dot and the text after its last
   * dot, lower-cased, is an allowed extension.
   */
  function AllowedFile(filename: string): (ok: bool)
    ensures ok ==> '.' in filename
  {
    match LastIndexOf(filename, '.')
    case None => false
    case Some(i) => Lower(filename[i + 1..]) in AllowedExtensions
  }

  /** A name without a dot is never accepted. */
  lemma NoDotRejected(filename: string)
    requires '.' !in filename
    ensures !AllowedFile(filename)
  {
  }

  /**
   * Only the last extension decides: for any stem, `stem + "." + ext` with a
   * dot-free `ext` is accepted exactly when `ext`, lower-cased, is allowed.
   * With `NoDotRejected` this covers every file name.
   */
  lemma {:induction false} AllowedFileByExtension(stem: string, ext: string)
    requires '.' !in ext
    ensures AllowedFile(stem + "." + ext) <==> Lower(ext) in AllowedExtensions
  {
    LastIndexOfSplit(stem, '.', ext);
    assert (stem + "." + ext)[|stem| + 1..] == ext;
  }

  /** The check ignores case: names equal after lower-casing are judged alike. */
  lemma {:induction false} AllowedFileIgnoresCase(f: string, g: string)
    requires Lower(f) == Lower(g)
    ensures AllowedFile(f) == AllowedFile(g)
  {
    assert forall j :: 0 <= j < |f| ==> (f[j] == '.' <==> g[j] == '.') by {
      forall j | 0 <= j < |f| ensures f[j] == '.' <==> g[j] == '.' {
        assert Lower(f)[j] == Lower(g)[j];
      }
    }
    if '.' in f {
      var i := LastIndexOf(f, '.').value;
      assert g[i] == '.';
      var k := LastIndexOf(g, '.').value;
      assert k == i;
      LowerSlice(f, i + 1, |f|);
      LowerSlice(g, i + 1, |g|);
      assert f[i + 1..] == f[i + 1..|f|];
      assert g[i + 1..] == g[i + 1..|g|];
    } else {
      assert '.' !in g by {
        forall j | 0 <= j < |g| ensures g[j] != '.' {
          assert f[j] != '.';
        }
      }
    }
  }

  /** Any `stem + ".JPG"`, such as `"A.JPG"`, is accepted: the extension is compared after lower-casing. */
  lemma UpperCaseExtensionAccepted(stem: string)
    ensures AllowedFile(stem + ".JPG")
  {
    var ext := "JPG";
    AllowedFileByExtension(stem, ext);
    assert stem + "." + ext == stem + ".JPG";
    assert Lower(ext) == "jpg" by {
      assert Lower(ext)[0] == 'j' && Lower(ext)[1] == 'p' && Lower(ext)[2] == 'g';
    }
  }

  /** Any `stem + ".jpg.exe"`, such as `"x.jpg.exe"`, is rejected: only the last extension counts. */
  lemma InnerExtensionIgnored(stem: string)
    ensures !AllowedFile(stem + ".jpg.exe")
  {
    var ext := "exe";
    assert '.' !in ext by {
      assert ext[0] != '.' && ext[1] != '.' && ext[2] != '.';
    }
    AllowedFileByExtension(stem + ".jpg", ext);
    assert stem + ".jpg" + "." + ext == stem + ".jpg.exe";
    var low := Lower(ext);
    assert |low| == 3 && low[0] == 'e';
  }
}
