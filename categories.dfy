/** The category tables of PathHelpers: `GetExtensionCategory`, the
    `InputCategoryNames` constants and `IsOutputTypeCompatibleWithCategory`. */
module Categories {

  // InputCategoryNames
  const Audio: string := "Audio"
  const Video: string := "Video"
  const Image: string := "Image"
  const AnimatedImage: string := "Animated Image"
  const Misc: string := "Misc"

  /** The five category names. A category is passed around as a string, so
      other strings can reach IsOutputTypeCompatibleWithCategory. */
  const CategoryNames: set<string> := {Audio, Video, Image, AnimatedImage, Misc}

  /** The five names are distinct strings, so a category is identified by its
      name; `Animated Image` is spelled with a space. */
  lemma CategoryNamesDistinct()
    ensures |CategoryNames| == 5
    ensures AnimatedImage == "Animated Image" && ' ' in AnimatedImage
  {
  }

  // The extension table, one set per category: lower-case, without the dot.
  const AudioExtensions: set<string> :=
    {"aac", "aiff", "ape", "cda", "flac", "mp3", "m4a", "oga", "ogg", "wav", "wma"}
  const VideoExtensions: set<string> :=
    {"3gp", "avi", "bik", "flv", "m4v", "mp4", "mpeg", "mov", "mkv", "ogv", "vob", "webm", "wmv"}
  const ImageExtensions: set<string> :=
    {"bmp", "exr", "ico", "jpg", "jpeg", "png", "psd", "tga", "tiff", "svg", "xcf"}
  const AnimatedImageExtensions: set<string> := {"gif"}

  const KnownExtensions: set<string> :=
    AudioExtensions + VideoExtensions + ImageExtensions + AnimatedImageExtensions

  /** GetExtensionCategory: an exact, case-sensitive lookup; every other string
      is Misc. The result is always one of the five names. */
  function GetExtensionCategory(extension: string): (category: string)
    ensures category in CategoryNames
  {
    match extension
    case "aac" | "aiff" | "ape" | "cda" | "flac" | "mp3" | "m4a" | "oga" | "ogg" | "wav" | "wma" =>
      Audio
    case "3gp" | "avi" | "bik" | "flv" | "m4v" | "mp4" | "mpeg" | "mov" | "mkv" | "ogv" | "vob" | "webm" | "wmv" =>
      Video
    case "bmp" | "exr" | "ico" | "jpg" | "jpeg" | "png" | "psd" | "tga" | "tiff" | "svg" | "xcf" =>
      Image
    case "gif" =>
      AnimatedImage
    case _ =>
      Misc
  }

  // The lookup agrees with the table, category by category.

  lemma AudioCategory(extension: string)
    ensures GetExtensionCategory(extension) == Audio <==> extension in AudioExtensions
  {
  }

  lemma VideoCategory(extension: string)
    ensures GetExtensionCategory(extension) == Video <==> extension in VideoExtensions
  {
  }

  lemma ImageCategory(extension: string)
    ensures GetExtensionCategory(extension) == Image <==> extension in ImageExtensions
  {
  }

  lemma AnimatedImageCategory(extension: string)
    ensures GetExtensionCategory(extension) == AnimatedImage <==> extension in AnimatedImageExtensions
  {
  }

  /** Misc is what is left: the four lemmas above and the fact that the result is
      one of the five names. */
  lemma MiscCategory(extension: string)
    ensures GetExtensionCategory(extension) == Misc <==> extension !in KnownExtensions
  {
    AudioCategory(extension);
    VideoCategory(extension);
    ImageCategory(extension);
    AnimatedImageCategory(extension);
  }

  /** The four extension lists are disjoint, so the order of the cases does not matter. */
  lemma ExtensionListsDisjoint()
    ensures AudioExtensions !! VideoExtensions && AudioExtensions !! ImageExtensions
    ensures AudioExtensions !! AnimatedImageExtensions && VideoExtensions !! ImageExtensions
    ensures VideoExtensions !! AnimatedImageExtensions && ImageExtensions !! AnimatedImageExtensions
  {
    AudioVideoDisjoint();
    AudioImageDisjoint();
    VideoImageDisjoint();
  }

  lemma AudioVideoDisjoint()
    ensures AudioExtensions !! VideoExtensions
  {
  }

  lemma AudioImageDisjoint()
    ensures AudioExtensions !! ImageExtensions
  {
  }

  lemma VideoImageDisjoint()
    ensures VideoExtensions !! ImageExtensions
  {
  }

  /** The lookup does not fold case: upper-case and dotted extensions are Misc. */
  lemma LookupIsCaseSensitive()
    ensures GetExtensionCategory("mp3") == Audio && GetExtensionCategory("MP3") == Misc
    ensures GetExtensionCategory(".mp3") == Misc
    ensures GetExtensionCategory("gif") == "Animated Image"
  {
  }

  /** The output formats. The enumeration itself is not part of this model;
      `Unlisted` stands for any value the switch does not name. */
  datatype OutputType = Aac | Flac | Mp3 | Ogg | Wav | Avi | Mkv | Mp4 | Webm | Ico | Jpg | Png | Gif | Unlisted

  /** The compatibility relation for every category other than Misc, as a table. */
  const CompatibilityTable: set<(OutputType, string)> := {
    (Aac, Audio), (Aac, Video), (Flac, Audio), (Flac, Video), (Mp3, Audio), (Mp3, Video),
    (Ogg, Audio), (Ogg, Video), (Wav, Audio), (Wav, Video),
    (Avi, Video), (Avi, AnimatedImage), (Mkv, Video), (Mkv, AnimatedImage),
    (Mp4, Video), (Mp4, AnimatedImage), (Webm, Video), (Webm, AnimatedImage),
    (Ico, Image), (Jpg, Image), (Png, Image),
    (Gif, Image), (Gif, Video), (Gif, AnimatedImage)
  }

  /** IsOutputTypeCompatibleWithCategory: Misc inputs are accepted by every output
      type; otherwise the pair must be in the table. */
  function IsOutputTypeCompatibleWithCategory(outputType: OutputType, category: string): (compatible: bool)
    ensures category == Misc ==> compatible
    ensures category != Misc ==> (compatible <==> (outputType, category) in CompatibilityTable)
  {
    if category == Misc then true
    else match outputType
      case Aac | Flac | Mp3 | Ogg | Wav => category == Audio || category == Video
      case Avi | Mkv | Mp4 | Webm => category == Video || category == AnimatedImage
      case Ico | Jpg | Png => category == Image
      case Gif => category == Image || category == Video || category == AnimatedImage
      case Unlisted => false
  }

  /** A category string that is none of the five names is compatible with nothing,
      and an output type the switch does not list accepts only Misc. */
  lemma UnknownInputsIncompatible(outputType: OutputType, category: string)
    ensures category !in CategoryNames ==> !IsOutputTypeCompatibleWithCategory(outputType, category)
    ensures IsOutputTypeCompatibleWithCategory(Unlisted, category) <==> category == Misc
  {
  }

  /** Classifying an extension and then checking compatibility: an extension
      outside the tables passes for every output type; a listed one passes
      exactly when its category is in the output type's row of the table. */
  lemma ExtensionCompatibility(outputType: OutputType, extension: string)
    ensures extension !in KnownExtensions ==>
      IsOutputTypeCompatibleWithCategory(outputType, GetExtensionCategory(extension))
    ensures extension in KnownExtensions ==>
      (IsOutputTypeCompatibleWithCategory(outputType, GetExtensionCategory(extension)) <==>
       (outputType, GetExtensionCategory(extension)) in CompatibilityTable)
  {
    MiscCategory(extension);
  }

  /** Audio outputs accept audio and video inputs (the sound track) but no images;
      image outputs accept only still images. */
  lemma CompatibilityExamples()
    ensures IsOutputTypeCompatibleWithCategory(Mp3, GetExtensionCategory("mkv"))
    ensures !IsOutputTypeCompatibleWithCategory(Mp3, GetExtensionCategory("png"))
    ensures !IsOutputTypeCompatibleWithCategory(Png, GetExtensionCategory("gif"))
    ensures IsOutputTypeCompatibleWithCategory(Gif, GetExtensionCategory("gif"))
    ensures forall o: OutputType :: IsOutputTypeCompatibleWithCategory(o, GetExtensionCategory("xyz123"))
  {
  }
}
