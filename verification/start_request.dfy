/** The checks made when the user asks to start a batch: the two typed
    dimensions must be integers of at least one, the input folder must list
    at least one image (counting `.webp`), and writing into the input folder
    itself needs the user's consent. The chosen extension is normalised
    before it reaches the batch loop. */
module StartRequest {
  import opened PathNames
  import opened FileKinds
  import opened CoverCrop

  /** What `int()` makes of a typed dimension: a value, or a parse error. */
  datatype Parsed = Parsed(value: int) | NotAnInteger

  datatype Refusal = InvalidDimensions | NoImagesFound | SameFolderDeclined

  /** Either the request is refused, or the batch starts with this target
      box and this desired extension. */
  datatype Decision = Refused(reason: Refusal) | Launch(target: Size, desiredExt: string)

  /** The extensions the pre-check counts as images: the six image
      extensions and `.webp`. */
  const ListedExtensions: seq<string> := ImageExtensions + [WebpExtension]

  /** Some entry of the input folder has a listed extension. */
  predicate HasListedImage(names: seq<string>)
  {
    exists i :: 0 <= i < |names| && Extension(names[i]) in ListedExtensions
  }

  /** Both typed dimensions are integers of at least one. */
  predicate ValidDimensions(width: Parsed, height: Parsed)
  {
    width.Parsed? && height.Parsed? && width.value >= 1 && height.value >= 1
  }

  /** Some entry is one the batch loop would not call unsupported. */
  predicate AnyProcessable(names: seq<string>)
  {
    exists i :: 0 <= i < |names| && Classify(names[i]) != Unsupported
  }

  /** `start_processing` up to launching the worker. `sameFolder` says the
      input and output folders resolve to the same path and `proceed` is
      the user's answer to the warning about it. The batch launches exactly
      when the dimensions are valid, some entry is an image or `.webp`, and
      the user consents to writing into the input folder; otherwise the
      first failing check names the refusal. */
  function StartProcessing(width: Parsed, height: Parsed, names: seq<string>,
                           sameFolder: bool, proceed: bool, choice: string): (d: Decision)
    ensures d == Refused(InvalidDimensions) <==> !ValidDimensions(width, height)
    ensures d == Refused(NoImagesFound) <==> ValidDimensions(width, height) && !AnyProcessable(names)
    ensures d == Refused(SameFolderDeclined) <==>
      ValidDimensions(width, height) && AnyProcessable(names) && sameFolder && !proceed
    ensures d.Launch? <==> ValidDimensions(width, height) && AnyProcessable(names) && (!sameFolder || proceed)
    ensures d.Launch? ==> d.target == Size(width.value, height.value) && PositiveSize(d.target)
    ensures d.Launch? ==> d.desiredExt == NormaliseExtension(choice)
    ensures d.Launch? ==> '.' !in d.desiredExt && LowerCase(d.desiredExt)
  {
    ListedMeansNotUnsupported(names);
    if width.NotAnInteger? || height.NotAnInteger? || width.value < 1 || height.value < 1 then
      Refused(InvalidDimensions)
    else if !HasListedImage(names) then
      Refused(NoImagesFound)
    else if sameFolder && !proceed then
      Refused(SameFolderDeclined)
    else
      Launch(Size(width.value, height.value), NormaliseExtension(choice))
  }

  /** The pre-check's extension list is exactly the set of names the batch
      loop does not call unsupported. */
  lemma ListedMeansNotUnsupported(names: seq<string>)
    ensures HasListedImage(names) <==> AnyProcessable(names)
  {
    if HasListedImage(names) {
      var i :| 0 <= i < |names| && Extension(names[i]) in ListedExtensions;
      ListedIsClassified(names[i]);
    }
    if AnyProcessable(names) {
      var i :| 0 <= i < |names| && Classify(names[i]) != Unsupported;
      ListedIsClassified(names[i]);
    }
  }

  lemma ListedIsClassified(name: string)
    ensures Extension(name) in ListedExtensions <==> Classify(name) != Unsupported
  {
  }

  /** With one of the selector's choices, every output a launched batch
      writes has an image extension again. */
  lemma LaunchedOutputsAreImages(width: Parsed, height: Parsed, names: seq<string>,
                                 sameFolder: bool, proceed: bool, choice: string, name: string)
    requires choice in ExtensionChoices
    ensures var d := StartProcessing(width, height, names, sameFolder, proceed, choice);
      d.Launch? ==> Classify(OutputName(name, d.desiredExt)) == Image
  {
    OutputIsResizable(name, choice);
  }
}
