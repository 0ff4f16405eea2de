/**
 * The two checks the image endpoints run before touching the store: the image's `type` must
 * name folder, user or bookmark as a whole word, and the uploaded file's extension (the text
 * after its last dot) must name png, jpg, jpeg or gif as a whole word; both ignore ASCII case.
 *
 * Each check is the test of a regular expression `\b(?:w1|w2|...)\b` with the `i` flag. The
 * search below tries every start position in turn and every alternative at each position, as a
 * backtracking matcher does, and is proved to accept exactly the strings that contain one of
 * the words with a word boundary on each side.
 */
module ImageValidation {
  import opened Common
  import opened Text

  /** INVALID_TYPE and INVALID_IMAGE_TYPE. */
  datatype ValidationError = InvalidType | InvalidImageType

  const TypeWords: seq<string> := ["folder", "user", "bookmark"]
  const ExtensionWords: seq<string> := ["png", "jpg", "jpeg", "gif"]

  /** The alternatives tried at one start position: does any of them match there? */
  function AnyWordAt(s: string, words: seq<string>, i: int): (r: bool)
    ensures r <==> exists k | 0 <= k < |words| :: WordAt(s, words[k], i)
  {
    if words == [] then false
    else WordAt(s, words[0], i) || AnyWordAt(s, words[1..], i)
  }

  /** The search from start position i onwards, the way `RegExp.prototype.test` scans. */
  function SearchFrom(s: string, words: seq<string>, i: nat): (r: bool)
    ensures r <==> exists j, k | i <= j <= |s| && 0 <= k < |words| :: WordAt(s, words[k], j)
    decreases |s| - i
  {
    if i > |s| then false
    else AnyWordAt(s, words, i) || SearchFrom(s, words, i + 1)
  }

  /** The regular expression matches somewhere in s. */
  function Test(s: string, words: seq<string>): (r: bool)
    ensures r <==> exists k | 0 <= k < |words| :: ContainsWord(s, words[k])
  {
    SearchFinds(s, words);
    SearchFrom(s, words, 0)
  }

  /** A match at some start position is an occurrence of one word with its boundaries. */
  lemma SearchFinds(s: string, words: seq<string>)
    ensures SearchFrom(s, words, 0) <==> exists k | 0 <= k < |words| :: ContainsWord(s, words[k])
  {
    if SearchFrom(s, words, 0) {
      var j, k :| 0 <= j <= |s| && 0 <= k < |words| && WordAt(s, words[k], j);
      assert ContainsWord(s, words[k]);
    }
    if exists k | 0 <= k < |words| :: ContainsWord(s, words[k]) {
      var k :| 0 <= k < |words| && ContainsWord(s, words[k]);
      var j :| 0 <= j <= |s| - |words[k]| && WordAt(s, words[k], j);
    }
  }

  /** isValidType: passes exactly when `type` contains folder, user or bookmark as a whole word. */
  function IsValidType(kind: string): (r: Outcome<ValidationError>)
    ensures r == Pass <==> ContainsWord(kind, "folder") || ContainsWord(kind, "user") || ContainsWord(kind, "bookmark")
    ensures r != Pass ==> r == Fail(InvalidType)
  {
    var ok := Test(kind, TypeWords);
    assert ok <==> ContainsWord(kind, TypeWords[0]) || ContainsWord(kind, TypeWords[1]) || ContainsWord(kind, TypeWords[2]) by {
      if ContainsWord(kind, TypeWords[2]) {
        assert 0 <= 2 < |TypeWords|;
      }
    }
    if ok then Pass else Fail(InvalidType)
  }

  /**
   * `split('.').pop()`: the text after the last dot, or the whole name when it has no dot. It has
   * no dot, ends the name, and is preceded in the name by a dot unless it is the whole name.
   */
  function LastSegment(name: string): (ext: string)
    ensures '.' !in ext
    ensures |ext| <= |name| && name[|name| - |ext|..] == ext
    ensures |ext| < |name| ==> name[|name| - |ext| - 1] == '.'
  {
    if name == [] then []
    else if name[|name| - 1] == '.' then []
    else LastSegment(name[..|name| - 1]) + [name[|name| - 1]]
  }

  /** validateImageType: passes exactly when the extension contains png, jpg, jpeg or gif as a word. */
  function ValidateImageType(fileName: string): (r: Outcome<ValidationError>)
    ensures r == Pass <==> exists k | 0 <= k < |ExtensionWords| :: ContainsWord(LastSegment(fileName), ExtensionWords[k])
    ensures r != Pass ==> r == Fail(InvalidImageType)
  {
    if Test(LastSegment(fileName), ExtensionWords) then Pass else Fail(InvalidImageType)
  }

  /** The three properties of LastSegment determine it: any string with them is the last segment. */
  lemma {:induction false} LastSegmentUnique(name: string, ext: string)
    requires '.' !in ext
    requires |ext| <= |name| && name[|name| - |ext|..] == ext
    requires |ext| < |name| ==> name[|name| - |ext| - 1] == '.'
    ensures ext == LastSegment(name)
  {
    if name == [] {
    } else if name[|name| - 1] == '.' {
    } else {
      assert ext != [];
      var init, shorter := name[..|name| - 1], ext[..|ext| - 1];
      assert init[|init| - |shorter|..] == shorter;
      LastSegmentUnique(init, shorter);
      assert ext == shorter + [name[|name| - 1]];
    }
  }

  /** The extension of `prefix.ext` is ext, when ext has no dot of its own. */
  lemma AfterLastDot(prefix: string, ext: string)
    requires '.' !in ext
    ensures LastSegment(prefix + "." + ext) == ext
  {
    var name := prefix + "." + ext;
    assert name[|name| - |ext|..] == ext;
    assert name[|name| - |ext| - 1] == '.';
    LastSegmentUnique(name, ext);
  }

  /** Only the text after the last dot decides: whatever precedes it is ignored. */
  lemma OnlyLastSegmentMatters(prefix: string, ext: string)
    requires '.' !in ext
    ensures LastSegment(prefix + "." + ext) == ext
    ensures ValidateImageType(prefix + "." + ext) == ValidateImageType(ext)
  {
    AfterLastDot(prefix, ext);
    LastSegmentUnique(ext, ext);
  }

  /** A name whose extension holds an allowed word at some position passes. */
  lemma ExtensionFound(name: string, ext: string, k: nat, i: nat)
    requires LastSegment(name) == ext
    requires k < |ExtensionWords| && WordAt(ext, ExtensionWords[k], i)
    ensures ValidateImageType(name) == Pass
  {
    assert ContainsWord(ext, ExtensionWords[k]);
  }

  lemma FolderAccepted()
    ensures IsValidType("Folder") == Pass
    ensures IsValidType("user avatar") == Pass
  {
    assert Lower("Folder") == "folder";
    assert WordAt("Folder", "folder", 0);
    var s := "user avatar";
    assert s[0..4] == "user" && Lower("user") == "user";
    assert WordAt(s, "user", 0);
  }

  /** "folders" is refused: the word must end where a non-word character or the string does. */
  lemma FoldersRejected()
    ensures IsValidType("folders") == Fail(InvalidType)
  {
    var s := "folders";
    forall i | 0 <= i <= |s| - 6 ensures !WordAt(s, "folder", i) {
      if i == 1 {
        assert Lower(s[1..7])[0] == 'o';
      }
    }
    forall i | 0 <= i <= |s| - 4 ensures !WordAt(s, "user", i) {
      assert Lower(s[i..i + 4])[0] == LowerChar(s[i]);
    }
  }

  lemma ExtensionUpperCaseAccepted()
    ensures ValidateImageType("a.PNG") == Pass
  {
    AfterLastDot("a", "PNG");
    assert Lower("PNG") == "png";
    ExtensionFound("a.PNG", "PNG", 0, 0);
  }

  /** A name without a dot is its own extension. */
  lemma BareExtensionAccepted()
    ensures ValidateImageType("png") == Pass
  {
    LastSegmentUnique("png", "png");
    assert Lower("png") == "png";
    ExtensionFound("png", "png", 0, 0);
  }

  lemma DoubleExtensionRejected()
    ensures ValidateImageType("a.png.exe") == Fail(InvalidImageType)
  {
    var e := "exe";
    AfterLastDot("a.png", e);
    forall k, i | 0 <= k < |ExtensionWords| && 0 <= i <= |e| - |ExtensionWords[k]| ensures !WordAt(e, ExtensionWords[k], i) {
      assert Lower(e[i..i + |ExtensionWords[k]|])[0] == LowerChar(e[i]);
    }
  }

  /**
   * The extension only has to contain an allowed word: "a.png-x" is accepted, because `-` is not
   * a word character and so ends the word.
   */
  lemma ExtensionWordNotWhole()
    ensures ValidateImageType("a.png-x") == Pass
  {
    var e := "png-x";
    AfterLastDot("a", e);
    assert e[0..3] == "png";
    assert Lower(e[0..3]) == "png";
    assert !IsWordChar(e[3]);
    ExtensionFound("a.png-x", e, 0, 0);
  }
}
