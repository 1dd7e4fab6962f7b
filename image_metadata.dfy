// Decoding of the EXIF and ICC values that the image components read from a
// file's metadata. Reading the file is outside the model: each decoder takes
// what the metadata reader returned for the tags it asks about.
module ImageMetadata {
  import opened Seqs

  /** What looking up one tag gives: the file has no such directory, the
      directory has no such tag, or the tag's value. */
  datatype Lookup<T> = NoDirectory | Missing | Found(value: T)

  const NotAvailable: string := "Data not available"
  const Extracted: string := "Data available. Metadata extraction completed"

  // ---------------------------------------------------------------------------
  // Image Orientation

  /** The three outputs: the extraction message, the orientation's name and the
      rotation angle (null when unknown). */
  datatype OrientationInfo = OrientationInfo(output: string, orientation: string, angle: Option<int>)

  /** The names and angles of the four orientations the component knows. */
  function KnownOrientation(tag: int): Option<(string, int)> {
    if tag == 1 then Some(("Normal", 0))
    else if tag == 3 then Some(("Upside-down", 180))
    else if tag == 6 then Some(("Rotated 90° CW", 90))
    else if tag == 8 then Some(("Rotated 90° CCW", 270))
    else None
  }

  /** Decodes the orientation tag of the IFD0 directory. `GetInt32` throws when
      the directory lacks the tag, which the component does not catch. */
  function Orientation(tag: Lookup<int>): (r: Result<OrientationInfo>)
    ensures tag.NoDirectory? ==> r == Success(OrientationInfo(NotAvailable, NotAvailable, None))
    ensures tag.Missing? <==> r.Failure?
    ensures tag.Found? ==> && r.Success? && r.value.output == Extracted
                           && (r.value.angle.None? <==> r.value.orientation == "Unknown orientation")
  {
    match tag
    case NoDirectory => Success(OrientationInfo(NotAvailable, NotAvailable, None))
    case Missing => Failure("MetadataException")
    case Found(t) =>
      match KnownOrientation(t)
      case Some((name, angle)) => Success(OrientationInfo(Extracted, name, Some(angle)))
      case None => Success(OrientationInfo(Extracted, "Unknown orientation", None))
  }

  /** The tag an angle comes from: each known angle belongs to one tag. */
  function TagOfAngle(angle: int): Option<int> {
    if angle == 0 then Some(1)
    else if angle == 180 then Some(3)
    else if angle == 90 then Some(6)
    else if angle == 270 then Some(8)
    else None
  }

  /** The angle output identifies the tag it was decoded from, and only the tags
      1, 3, 6 and 8 produce an angle. */
  lemma OrientationAngleIdentifiesTag(t: int)
    ensures Orientation(Found(t)).value.angle.Some? <==> t in {1, 3, 6, 8}
    ensures Orientation(Found(t)).value.angle.Some? ==>
              TagOfAngle(Orientation(Found(t)).value.angle.value) == Some(t)
  {
  }

  // ---------------------------------------------------------------------------
  // Image Colour Profile

  /** The four outputs: extraction message, colour space, ICC profile and
      photometric interpretation. */
  datatype ColorInfo = ColorInfo(output: string, colorSpace: string, profile: string, photometric: string)

  /** The ICC directory's profile-version and profile-class descriptions, each
      possibly null. */
  datatype IccDescriptions = IccDescriptions(version: Option<string>, profileClass: Option<string>)

  /** What the IFD0 directory gives: the colour-space code (a missing tag makes
      `GetInt32` throw, which the component catches) and the photometric
      interpretation's description, possibly null. */
  datatype Ifd0Colour = Ifd0Colour(colorSpace: Option<int>, photometric: Option<string>)

  /** The colour-space names by EXIF code. */
  function ColorSpaceName(code: int): (name: string)
    ensures name != "Not available" && name != NotAvailable
  {
    if code == 1 then "sRGB"
    else if code == 65535 then "Uncalibrated"
    else if code == 2 then "Adobe RGB"
    else if code == 3 then "ProPhoto RGB"
    else if code == 4 then "CMYK"
    else if code == 5 then "Lab Color"
    else "Unknown"
  }

  /** The code a colour-space name comes from, for every name but "Unknown". */
  function CodeOfColorSpace(name: string): Option<int> {
    if name == "sRGB" then Some(1)
    else if name == "Uncalibrated" then Some(65535)
    else if name == "Adobe RGB" then Some(2)
    else if name == "ProPhoto RGB" then Some(3)
    else if name == "CMYK" then Some(4)
    else if name == "Lab Color" then Some(5)
    else None
  }

  /** Six codes have names of their own, each recovered from its name; every
      other code is "Unknown". */
  lemma ColorSpaceNamesDistinct(code: int)
    ensures ColorSpaceName(code) == "Unknown" <==> code !in {1, 2, 3, 4, 5, 65535}
    ensures code in {1, 2, 3, 4, 5, 65535} ==> CodeOfColorSpace(ColorSpaceName(code)) == Some(code)
  {
  }

  function ColorProfile(icc: Option<IccDescriptions>, ifd0: Option<Ifd0Colour>): (r: ColorInfo)
    ensures icc.None? ==> r.profile == NotAvailable
    ensures icc.Some? && icc.value.version.Some? ==> r.profile == icc.value.version.value
    ensures icc.Some? && icc.value.version.None? && icc.value.profileClass.Some? ==>
              r.profile == icc.value.profileClass.value
    ensures icc.Some? && icc.value.version.None? && icc.value.profileClass.None? ==>
              r.profile == "Unknown profile"
    ensures ifd0.None? ==> r.output == r.colorSpace == r.photometric == NotAvailable
    ensures ifd0.Some? ==> r.output == Extracted
    ensures ifd0.Some? ==> (r.colorSpace == "Not available" <==> ifd0.value.colorSpace.None?)
    ensures ifd0.Some? && ifd0.value.colorSpace.Some? ==> r.colorSpace == ColorSpaceName(ifd0.value.colorSpace.value)
    ensures ifd0.Some? ==> (r.photometric == "Not available" <==>
              ifd0.value.photometric.None? || ifd0.value.photometric.value in {"", "Not available"})
  {
    var profile :=
      match icc
      case None => NotAvailable
      case Some(d) =>
        if d.version.Some? then d.version.value
        else if d.profileClass.Some? then d.profileClass.value
        else "Unknown profile";
    match ifd0
    case None => ColorInfo(NotAvailable, NotAvailable, profile, NotAvailable)
    case Some(d) =>
      var space := if d.colorSpace.Some? then ColorSpaceName(d.colorSpace.value) else "Not available";
      var photometric := if d.photometric.None? || d.photometric.value == "" then "Not available"
                         else d.photometric.value;
      ColorInfo(Extracted, space, profile, photometric)
  }

  // ---------------------------------------------------------------------------
  // Image Date Time

  /** `string.Split(sep)`: the pieces between separators, empty ones included. */
  function Split(s: string, sep: char): (parts: seq<string>)
    ensures |parts| >= 1
    ensures forall i :: 0 <= i < |parts| ==> sep !in parts[i]
    decreases |s|
  {
    if |s| == 0 then [""]
    else
      var rest := Split(s[1..], sep);
      if s[0] == sep then [""] + rest
      else [[s[0]] + rest[0]] + rest[1..]
  }

  /** `string.Join(sep, parts)`. */
  function Join(parts: seq<string>, sep: char): string
    requires |parts| >= 1
  {
    if |parts| == 1 then parts[0] else parts[0] + [sep] + Join(parts[1..], sep)
  }

  /** Splitting loses nothing: joining the pieces back gives the string. */
  lemma {:induction false} JoinSplit(s: string, sep: char)
    ensures Join(Split(s, sep), sep) == s
    decreases |s|
  {
    if |s| > 0 {
      var rest := Split(s[1..], sep);
      JoinSplit(s[1..], sep);
      if s[0] == sep {
        assert ([""] + rest)[1..] == rest;
        assert s == [sep] + s[1..];
      } else {
        var parts := [[s[0]] + rest[0]] + rest[1..];
        if |rest| > 1 {
          assert parts[1..] == rest[1..];
          assert s == [s[0]] + s[1..];
        }
      }
    }
  }

  /** A string splits on `sep` into exactly two pieces when it has exactly one
      `sep`: the text before it and the text after it. */
  lemma SplitTwo(s: string, sep: char)
    requires |Split(s, sep)| == 2
    ensures s == Split(s, sep)[0] + [sep] + Split(s, sep)[1]
    ensures sep !in Split(s, sep)[0] && sep !in Split(s, sep)[1]
  {
    JoinSplit(s, sep);
    assert Split(s, sep)[1..][0] == Split(s, sep)[1];
  }

  /** The three outputs: extraction message, date and time. */
  datatype DateTimeInfo = DateTimeInfo(output: string, date: string, time: string)

  /** The component as written: a directory without the date tag yields the
      text "Not available", and that text is then split like a date. */
  function DateTime(tag: Lookup<string>): (r: DateTimeInfo)
    ensures tag.NoDirectory? ==> r == DateTimeInfo(NotAvailable, NotAvailable, NotAvailable)
    ensures !tag.NoDirectory? ==> r.output == Extracted
    ensures tag.Found? && |Split(tag.value, ' ')| == 2 ==>
              tag.value == r.date + " " + r.time && ' ' !in r.date && ' ' !in r.time
    ensures tag.Found? && |Split(tag.value, ' ')| != 2 ==> r.date == r.time == NotAvailable
  {
    var datetime :=
      match tag
      case NoDirectory => "Empty"
      case Missing => "Not available"
      case Found(s) => s;
    var output := if tag.NoDirectory? then NotAvailable else Extracted;
    var parts := Split(datetime, ' ');
    SplitAtSeparator("Empty", "", ' ');
    if datetime != "Empty" && |parts| == 2 then
      SplitTwo(datetime, ' ');
      DateTimeInfo(output, parts[0], parts[1])
    else
      DateTimeInfo(output, NotAvailable, NotAvailable)
  }

  /** A file with the directory but no date tag gets the date "Not" and the
      time "available". */
  lemma DateTimeSplitsPlaceholder()
    ensures DateTime(Missing) == DateTimeInfo(Extracted, "Not", "available")
  {
    SplitPlaceholder();
  }

  lemma SplitPlaceholder()
    ensures Split("Not available", ' ') == ["Not", "available"]
  {
    var a, b := "Not", "available";
    assert ' ' !in a && ' ' !in b;
    assert "Not available" == a + [' '] + b;
    SplitAtSeparator(a, b, ' ');
    SplitAtSeparator(b, "", ' ');
  }

  /** Splitting at the first separator. */
  lemma {:induction false} SplitAtSeparator(a: string, b: string, sep: char)
    requires sep !in a
    ensures Split(a + [sep] + b, sep) == [a] + Split(b, sep)
    ensures Split(a, sep) == [a]
    decreases |a|
  {
    if |a| > 0 {
      SplitAtSeparator(a[1..], b, sep);
      assert (a + [sep] + b)[1..] == a[1..] + [sep] + b;
      assert [a[0]] + a[1..] == a;
    }
  }

  /** The evidently intended decoding: only a date tag that is present is split,
      so the date and time are either both "Data not available" or the two
      halves of the tag's text. */
  function DateTimeIntended(tag: Lookup<string>): (r: DateTimeInfo)
    ensures tag.NoDirectory? ==> r == DateTimeInfo(NotAvailable, NotAvailable, NotAvailable)
    ensures !tag.NoDirectory? ==> r.output == Extracted
    ensures r.date != NotAvailable || r.time != NotAvailable ==>
              tag.Found? && tag.value == r.date + " " + r.time && ' ' !in r.date && ' ' !in r.time
    ensures tag.Found? && |Split(tag.value, ' ')| == 2 ==> tag.value == r.date + " " + r.time
  {
    var output := if tag.NoDirectory? then NotAvailable else Extracted;
    match tag
    case Found(s) =>
      var parts := Split(s, ' ');
      if |parts| == 2 then
        SplitTwo(s, ' ');
        DateTimeInfo(output, parts[0], parts[1])
      else
        DateTimeInfo(output, NotAvailable, NotAvailable)
    case _ => DateTimeInfo(output, NotAvailable, NotAvailable)
  }
}
