/** How the resizer sorts directory entries by extension, how it normalises
    the extension the user picks, and how it names the resized output. */
module FileKinds {
  import opened PathNames

  /** The extensions that reach the resize path. */
  const ImageExtensions: seq<string> := [".jpg", ".jpeg", ".png", ".bmp", ".tif", ".tiff"]

  /** The one extension rejected with its own reason. */
  const WebpExtension: string := ".webp"

  /** The choices the extension selector offers; the first is the default. */
  const ExtensionChoices: seq<string> := [".jpg", ".jpeg", ".png"]

  datatype Kind = Webp | Image | Unsupported

  /** The extension of a file name, lower-cased before any test. */
  function Extension(name: string): string
  {
    Lower(SplitExt(name).1)
  }

  /** The kind of a directory entry, decided on its lower-cased extension.
      Only a name holding a dot can be anything but unsupported. */
  function Classify(name: string): (k: Kind)
    ensures k != Unsupported ==> '.' in name
  {
    var d := ExtensionStart(name);
    assert d >= 0 ==> name[d] == '.';
    var ext := Extension(name);
    if ext == WebpExtension then Webp
    else if ext in ImageExtensions then Image
    else Unsupported
  }

  /** A name made of a root with a non-dot character in its last component,
      a dot and a dot-free, separator-free `e` is `.webp` or an image
      exactly when `e`, in lower case, is one of those extensions: the
      letter case of the extension never matters. */
  lemma ClassifyOfSuffix(root: string, e: string)
    requires exists k :: 0 <= k < |root| && root[k] != '.' && Sep !in root[k..]
    requires '.' !in e && Sep !in e
    ensures Classify(root + "." + e) == Webp <==> "." + Lower(e) == WebpExtension
    ensures Classify(root + "." + e) == Image <==> "." + Lower(e) in ImageExtensions
  {
    SplitExtOfSuffix(root, e);
    LowerAppend(".", e);
    assert Lower(".") == ".";
  }

  /** A name without any dot has no extension and is unsupported. */
  lemma ClassifyWithoutDot(name: string)
    requires '.' !in name
    ensures Classify(name) == Unsupported
  {
  }

  /** A dot file such as ".png" or ".webp" has no extension either: its only
      dot leads the name, so it is unsupported whatever follows the dot. */
  lemma ClassifyDotFile(e: string)
    requires '.' !in e
    ensures Classify("." + e) == Unsupported
  {
    var p := "." + e;
    assert p[0] == '.';
    assert forall j :: 0 < j < |p| ==> p[j] == e[j - 1];
    LastIndexOfUnique(p, '.', 0);
    assert ExtensionStart(p) == -1;
    assert SplitExt(p).1 == [];
  }

  /** The kind of a file does not depend on the letter case of its name. */
  lemma ClassifyIgnoresCase(a: string, b: string)
    requires Lower(a) == Lower(b)
    ensures Classify(a) == Classify(b)
  {
    SplitExtLower(a);
    SplitExtLower(b);
    LowerIsIdempotent(SplitExt(a).1);
    LowerIsIdempotent(SplitExt(b).1);
  }

  /** `desired_ext = choice.replace(".", "").lower()`: the chosen extension
      without any dot, in lower case. */
  function NormaliseExtension(choice: string): (e: string)
    ensures '.' !in e
    ensures LowerCase(e)
    ensures |e| <= |choice|
  {
    LowerIsIdempotent(RemoveDots(choice));
    Lower(RemoveDots(choice))
  }

  /** A string without upper-case letters is left unchanged by
      lower-casing. */
  lemma LowerOfLowercase(s: string)
    requires LowerCase(s)
    ensures Lower(s) == s
  {
  }

  /** The normalised extensions are exactly the dot-free lower-case strings:
      those are fixed points, and every result is one, so normalising twice
      changes nothing. */
  lemma NormaliseFixedPoints(choice: string)
    ensures '.' !in choice && LowerCase(choice) ==> NormaliseExtension(choice) == choice
    ensures NormaliseExtension(NormaliseExtension(choice)) == NormaliseExtension(choice)
  {
    if '.' !in choice && LowerCase(choice) {
      RemoveDotsOfDotFree(choice);
      LowerOfLowercase(choice);
    }
    var e := NormaliseExtension(choice);
    RemoveDotsOfDotFree(e);
    LowerOfLowercase(e);
  }

  /** The three choices of the selector normalise to bare lower-case names. */
  lemma NormaliseChoices()
    ensures NormaliseExtension(".jpg") == "jpg"
    ensures NormaliseExtension(".jpeg") == "jpeg"
    ensures NormaliseExtension(".png") == "png"
  {
    NormaliseJpg();
    NormaliseJpeg();
    NormalisePng();
  }

  /** A bare extension: no dot, no separator, no upper-case letter. */
  predicate Bare(s: string)
  {
    '.' !in s && Sep !in s && LowerCase(s)
  }

  lemma NormaliseJpg()
    ensures NormaliseExtension(".jpg") == "jpg"
    ensures "." + NormaliseExtension(".jpg") == ImageExtensions[0]
    ensures Sep !in NormaliseExtension(".jpg")
  {
    var s := "jpg";
    assert s[0] == 'j' && s[1] == 'p' && s[2] == 'g';
    assert Bare(s);
    assert ".jpg" == "." + s;
    NormaliseLeadingDot(s);
  }

  lemma NormaliseJpeg()
    ensures NormaliseExtension(".jpeg") == "jpeg"
    ensures "." + NormaliseExtension(".jpeg") == ImageExtensions[1]
    ensures Sep !in NormaliseExtension(".jpeg")
  {
    var s := "jpeg";
    assert s[0] == 'j' && s[1] == 'p' && s[2] == 'e' && s[3] == 'g';
    assert Bare(s);
    assert ".jpeg" == "." + s;
    NormaliseLeadingDot(s);
  }

  lemma NormalisePng()
    ensures NormaliseExtension(".png") == "png"
    ensures "." + NormaliseExtension(".png") == ImageExtensions[2]
    ensures Sep !in NormaliseExtension(".png")
  {
    var s := "png";
    assert s[0] == 'p' && s[1] == 'n' && s[2] == 'g';
    assert Bare(s);
    assert ".png" == "." + s;
    NormaliseLeadingDot(s);
  }

  lemma NormaliseLeadingDot(s: string)
    requires Bare(s)
    ensures NormaliseExtension("." + s) == s
  {
    RemoveDotsCons('.', s);
    assert "." + s == ['.'] + s;
    RemoveDotsOfDotFree(s);
    LowerOfLowercase(s);
  }

  /** `f"{base_name} Resized.{desired_ext}"` where `base_name` is the root of
      the input name. */
  function OutputName(name: string, desiredExt: string): (r: string)
    ensures Sep !in name && Sep !in desiredExt ==> Sep !in r
  {
    SplitExtPartition(name);
    SplitExt(name).0 + " Resized." + desiredExt
  }

  /** The output name splits back into the input's root with " Resized"
      appended and the desired extension behind a single dot. */
  lemma OutputNameRoundTrip(name: string, desiredExt: string)
    requires '.' !in desiredExt && Sep !in desiredExt
    ensures SplitExt(OutputName(name, desiredExt)) ==
      (SplitExt(name).0 + " Resized", "." + desiredExt)
    ensures Extension(OutputName(name, desiredExt)) == "." + Lower(desiredExt)
  {
    var root := SplitExt(name).0 + " Resized";
    var k := |root| - 1;
    assert root[k] == 'd';
    assert root[k..] == "d";
    assert root + "." + desiredExt == OutputName(name, desiredExt);
    SplitExtOfSuffix(root, desiredExt);
    LowerAppend(".", desiredExt);
    assert Lower(".") == ".";
  }

  /** An output whose desired extension is one of the image extensions
      (without its dot, in lower case) is classified as an image. */
  lemma OutputWithImageExtension(name: string, e: string)
    requires Bare(e)
    requires "." + e in ImageExtensions
    ensures Classify(OutputName(name, e)) == Image
  {
    OutputNameRoundTrip(name, e);
    LowerOfLowercase(e);
    ImageExtensionIsImage(OutputName(name, e));
  }

  lemma ImageExtensionIsImage(name: string)
    requires Extension(name) in ImageExtensions
    ensures Classify(name) == Image
  {
  }

  lemma ChoiceIsImageExtension(choice: string)
    requires choice in ExtensionChoices
    ensures "." + NormaliseExtension(choice) in ImageExtensions
    ensures Sep !in NormaliseExtension(choice)
  {
    if choice == ".jpg" {
      NormaliseJpg();
    } else if choice == ".jpeg" {
      NormaliseJpeg();
    } else {
      NormalisePng();
    }
  }

  /** Two inputs are written to the same output name exactly when their
      roots agree, as for "photo.png" and "photo.JPG"; the second then meets
      the overwrite question. */
  lemma OutputNamesCollide(a: string, b: string, desiredExt: string)
    ensures OutputName(a, desiredExt) == OutputName(b, desiredExt) <==> SplitExt(a).0 == SplitExt(b).0
  {
    var ra := SplitExt(a).0;
    var rb := SplitExt(b).0;
    var tail := " Resized." + desiredExt;
    assert OutputName(a, desiredExt) == ra + tail;
    assert OutputName(b, desiredExt) == rb + tail;
    if OutputName(a, desiredExt) == OutputName(b, desiredExt) {
      assert ra + tail == rb + tail;
      assert |ra| == |rb|;
      assert ra == (ra + tail)[..|ra|];
      assert rb == (rb + tail)[..|rb|];
    }
  }

  /** Every output the resizer writes for one of the selector's choices is
      itself a file it would accept as input. */
  lemma OutputIsResizable(name: string, choice: string)
    requires choice in ExtensionChoices
    ensures Classify(OutputName(name, NormaliseExtension(choice))) == Image
  {
    ChoiceIsImageExtension(choice);
    OutputWithImageExtension(name, NormaliseExtension(choice));
  }
}
