/** Reading one lensed injection from a parameter table and turning the
    source parameters into the effective parameters one lensed image is seen
    with: arrival time shifted by the image's time delay, distance divided by
    the square root of the absolute magnification, phase shifted by the Morse
    phase of the image type. */
module InjectionData {
  import opened Wrappers
  import opened Decimal

  /** The parameter table read from the injection file: one column of values
      per header name. */
  type Columns = map<string, seq<real>>

  /** The field exists and `line` indexes it, counting from the end when
      negative. */
  predicate Readable(table: Columns, name: string, line: int)
  {
    name in table && -|table[name]| <= line < |table[name]|
  }

  /** `table[name][line]` on a structured array: a missing field is a
      ValueError; the line may count from the end when negative, and one
      outside `-len .. len - 1` is an IndexError. */
  function Field(table: Columns, name: string, line: int): (r: Result<real, Exception>)
    ensures r.Ok? <==> Readable(table, name, line)
    ensures r == Err(ValueError) <==> name !in table
    ensures r == Err(IndexError) <==> name in table && !Readable(table, name, line)
    ensures r.Ok? ==> r.value == table[name][if line >= 0 then line else |table[name]| + line]
  {
    if name !in table then Err(ValueError)
    else if line < -|table[name]| || |table[name]| <= line then Err(IndexError)
    else Ok(table[name][if line >= 0 then line else |table[name]| + line])
  }

  predicate AllReadable(table: Columns, names: seq<string>, line: int)
  {
    forall k :: 0 <= k < |names| ==> Readable(table, names[k], line)
  }

  /** `table[names[0]][line]`, `table[names[1]][line]`, ... in order, stopping
      at the first field that cannot be read and raising its error. */
  function ReadFields(table: Columns, names: seq<string>, line: int): (r: Result<seq<real>, Exception>)
    ensures r.Ok? <==> AllReadable(table, names, line)
    ensures r.Ok? ==> |r.value| == |names|
    ensures r.Ok? ==> forall k :: 0 <= k < |names| ==> Field(table, names[k], line) == Ok(r.value[k])
    ensures r.Err? ==> exists k :: 0 <= k < |names| && AllReadable(table, names[..k], line) && Field(table, names[k], line) == Err(r.error)
  {
    if names == [] then Ok([])
    else
      var first :- Field(table, names[0], line);
      var rest := ReadFields(table, names[1..], line);
      if rest.Err? then
        assert exists k :: 0 <= k < |names| &&
            AllReadable(table, names[..k], line) && Field(table, names[k], line) == Err(rest.error) by {
          var j :| 0 <= j < |names| - 1 &&
            AllReadable(table, names[1..][..j], line) && Field(table, names[1..][j], line) == Err(rest.error);
          assert names[..j + 1] == [names[0]] + names[1..][..j];
        }
        Err(rest.error)
      else
        Ok([first] + rest.value)
  }

  /** The source parameters of one injected binary. */
  datatype Injection = Injection(mass1: real, mass2: real, a1: real, a2: real,
                                 luminosityDistance: real, geocentTime: real, phase: real,
                                 iota: real, psi: real, ra: real, dec: real)

  /** The fields holding the source parameters, in the order they are read. */
  const SourceFields: seq<string> :=
    ["mass_1", "mass_2", "a_1", "a_2", "luminosity_distance", "geocent_time",
     "phase", "iota", "psi", "ra", "dec"]

  /** The source parameters in the order of `SourceFields`. The script prints
      the effective parameters in this same order too: m1 m2 chi1 chi2 dist
      tc phic inc pol ra dec. */
  function Values(s: Injection): (r: seq<real>)
    ensures |r| == |SourceFields|
  {
    [s.mass1, s.mass2, s.a1, s.a2, s.luminosityDistance, s.geocentTime, s.phase, s.iota, s.psi, s.ra, s.dec]
  }

  /** What lensing does to one image: magnification, time delay, and image
      type (twice the Morse index). */
  datatype LensedImage = LensedImage(magnification: real, timeDelay: real, imageType: real)

  /** The column of an image-dependent quantity: `"<base>_%d" % image`. Its
      suffix reads back as the image number. */
  function ImageField(base: string, image: int): (name: string)
    ensures |name| > |base| + 1 && name[..|base| + 1] == base + "_"
    ensures ParseInt(name[|base| + 1..]) == Some(image)
  {
    IntToStringRoundTrip(image);
    var name := base + "_" + IntToString(image);
    assert name[|base| + 1..] == IntToString(image);
    name
  }

  /** Different images of one quantity are stored in different columns. */
  lemma ImageFieldsDiffer(base: string, image: int, other: int)
    requires image != other
    ensures ImageField(base, image) != ImageField(base, other)
  {
  }

  /** The fields holding the lensing of image `image`, in the order they are read. */
  function ImageFields(image: int): seq<string>
  {
    [ImageField("magnifications", image), ImageField("time_delays", image), ImageField("image_types", image)]
  }

  function Abs(x: real): (r: real)
    ensures 0.0 <= r && (r == x || r == -x)
  {
    if x < 0.0 then -x else x
  }

  /** `sqrt` is the non-negative square root on the non-negative reals. */
  ghost predicate IsSqrt(sqrt: real -> real)
  {
    forall x :: 0.0 <= x ==> 0.0 <= sqrt(x) && sqrt(x) * sqrt(x) == x
  }

  /** The Morse phase of an image type: minus pi times half the type. */
  function MorsePhase(imageType: real, pi: real): real
  {
    -pi * (imageType * 0.5)
  }

  /** With a true square root, only zero has a zero root. */
  lemma RootOfNonZero(sqrt: real -> real, x: real)
    requires IsSqrt(sqrt) && 0.0 < x
    ensures sqrt(x) != 0.0
  {
  }

  /** The effective parameters of one image; `sqrt` and `pi` stand for the
      library's square root and constant. None when the magnification is zero:
      the distance is then divided by zero and is not a real number. */
  function Effective(s: Injection, img: LensedImage, sqrt: real -> real, pi: real): (r: Option<Injection>)
    requires IsSqrt(sqrt)
    ensures r.Some? <==> img.magnification != 0.0
    ensures r.Some? ==> r.value.geocentTime == s.geocentTime + img.timeDelay
    ensures r.Some? ==> r.value.phase * 2.0 == s.phase * 2.0 - pi * img.imageType
    ensures r.Some? ==> r.value.luminosityDistance * sqrt(Abs(img.magnification)) == s.luminosityDistance
    ensures r.Some? ==> r.value.(luminosityDistance := s.luminosityDistance, geocentTime := s.geocentTime, phase := s.phase) == s
  {
    if img.magnification == 0.0 then None
    else
      var root := sqrt(Abs(img.magnification));
      RootOfNonZero(sqrt, Abs(img.magnification));
      Some(s.(luminosityDistance := s.luminosityDistance / root,
              geocentTime := s.geocentTime + img.timeDelay,
              phase := s.phase + MorsePhase(img.imageType, pi)))
  }

  /** The source parameters an image's effective parameters came from:
      undoes the delay, the magnification and the Morse phase. */
  function Intrinsic(e: Injection, img: LensedImage, sqrt: real -> real, pi: real): Injection
  {
    e.(luminosityDistance := e.luminosityDistance * sqrt(Abs(img.magnification)),
       geocentTime := e.geocentTime - img.timeDelay,
       phase := e.phase - MorsePhase(img.imageType, pi))
  }

  /** Undoing the lensing of an image gives back the source. */
  lemma IntrinsicOfEffective(s: Injection, img: LensedImage, sqrt: real -> real, pi: real)
    requires IsSqrt(sqrt) && img.magnification != 0.0
    ensures Intrinsic(Effective(s, img, sqrt, pi).value, img, sqrt, pi) == s
  {
  }

  /** Lensing the source recovered from an image gives back that image's
      effective parameters. */
  lemma EffectiveOfIntrinsic(e: Injection, img: LensedImage, sqrt: real -> real, pi: real)
    requires IsSqrt(sqrt) && img.magnification != 0.0
    ensures Effective(Intrinsic(e, img, sqrt, pi), img, sqrt, pi) == Some(e)
  {
    var root := sqrt(Abs(img.magnification));
    RootOfNonZero(sqrt, Abs(img.magnification));
    var back := Effective(Intrinsic(e, img, sqrt, pi), img, sqrt, pi).value;
    assert back.luminosityDistance == e.luminosityDistance by {
      assert (e.luminosityDistance * root) / root == e.luminosityDistance;
    }
    assert back.geocentTime == e.geocentTime;
    assert back.phase == e.phase;
  }

  /** The squared effective distance times the absolute magnification is the
      squared source distance. */
  lemma EffectiveDistanceSquared(s: Injection, img: LensedImage, sqrt: real -> real, pi: real)
    requires IsSqrt(sqrt) && img.magnification != 0.0
    ensures
      var d := Effective(s, img, sqrt, pi).value.luminosityDistance;
      d * d * Abs(img.magnification) == s.luminosityDistance * s.luminosityDistance
  {
    var mu := Abs(img.magnification);
    var root := sqrt(mu);
    RootOfNonZero(sqrt, mu);
    QuotientSquared(s.luminosityDistance, root, mu);
  }

  lemma QuotientSquared(d: real, root: real, square: real)
    requires root != 0.0 && root * root == square
    ensures (d / root) * (d / root) * square == d * d
  {
    var q := d / root;
    assert q * root == d;
    assert q * q * (root * root) == (q * root) * (q * root);
  }

  /** Two images of one source: the arrival times differ by the difference of
      the time delays, and the squared effective distances are inversely
      proportional to the absolute magnifications. */
  lemma ImagesOfOneSource(s: Injection, first: LensedImage, second: LensedImage, sqrt: real -> real, pi: real)
    requires IsSqrt(sqrt) && first.magnification != 0.0 && second.magnification != 0.0
    ensures Effective(s, first, sqrt, pi).Some? && Effective(s, second, sqrt, pi).Some?
    ensures Effective(s, second, sqrt, pi).value.geocentTime - Effective(s, first, sqrt, pi).value.geocentTime
      == second.timeDelay - first.timeDelay
    ensures
      var d1 := Effective(s, first, sqrt, pi).value.luminosityDistance;
      var d2 := Effective(s, second, sqrt, pi).value.luminosityDistance;
      d1 * d1 * Abs(first.magnification) == d2 * d2 * Abs(second.magnification)
  {
    EffectiveDistanceSquared(s, first, sqrt, pi);
    EffectiveDistanceSquared(s, second, sqrt, pi);
  }

  /** Every source field holds the given parameter at the line. */
  predicate InjectionAt(table: Columns, line: int, s: Injection)
  {
    forall k :: 0 <= k < |SourceFields| ==> Field(table, SourceFields[k], line) == Ok(Values(s)[k])
  }

  /** The columns of image `image` hold the given lensing at the line. */
  predicate ImageAt(table: Columns, line: int, image: int, img: LensedImage)
  {
    && Field(table, ImageField("magnifications", image), line) == Ok(img.magnification)
    && Field(table, ImageField("time_delays", image), line) == Ok(img.timeDelay)
    && Field(table, ImageField("image_types", image), line) == Ok(img.imageType)
  }

  /** The source parameters on one line of the table, read in the script's
      order; the error is that of the first field that cannot be read. */
  function ReadInjection(table: Columns, line: int): (r: Result<Injection, Exception>)
    ensures r.Ok? <==> AllReadable(table, SourceFields, line)
    ensures r.Ok? ==> InjectionAt(table, line, r.value)
    ensures r.Err? ==> r == ReadFields(table, SourceFields, line).PropagateFailure()
  {
    var v :- ReadFields(table, SourceFields, line);
    var s := Injection(v[0], v[1], v[2], v[3], v[4], v[5], v[6], v[7], v[8], v[9], v[10]);
    assert Values(s) == v;
    Ok(s)
  }

  /** The lensing of image `image` on one line of the table, read from the
      columns suffixed with the image number; the error is that of the first
      column that cannot be read. */
  function ReadImage(table: Columns, line: int, image: int): (r: Result<LensedImage, Exception>)
    ensures r.Ok? <==> AllReadable(table, ImageFields(image), line)
    ensures r.Ok? ==> ImageAt(table, line, image, r.value)
    ensures r.Err? ==> r == ReadFields(table, ImageFields(image), line).PropagateFailure()
  {
    var v :- ReadFields(table, ImageFields(image), line);
    Ok(LensedImage(v[0], v[1], v[2]))
  }

  /** How a run of the script ends. */
  datatype Outcome =
    | Usage                          // usage text, exit status 1
    | Raised(error: Exception)       // an uncaught exception
    | NonFinite                      // zero magnification: the distance printed is not a finite number
    | Printed(values: seq<real>)     // the eleven effective parameters

  /** The script on arguments `argv` (program name first) and the table read
      from the file named by `argv[1]`. */
  function ReadInjectionData(argv: seq<string>, table: Columns, sqrt: real -> real, pi: real): (r: Outcome)
    requires IsSqrt(sqrt)
    ensures r == Usage <==> |argv| != 4
    ensures |argv| == 4 && ParseInt(argv[2]).None? ==> r == Raised(ValueError)
    ensures |argv| == 4 && ParseInt(argv[2]).Some? && ParseInt(argv[3]).None? ==> r == Raised(ValueError)
    ensures r.Printed? ==> |r.values| == 11
  {
    if |argv| != 4 then Usage
    else match ParseInt(argv[2])
      case None => Raised(ValueError)
      case Some(line) =>
        match ParseInt(argv[3])
        case None => Raised(ValueError)
        case Some(image) =>
          match ReadInjection(table, line)
          case Err(e) => Raised(e)
          case Ok(s) =>
            match ReadImage(table, line, image)
            case Err(e) => Raised(e)
            case Ok(img) =>
              match Effective(s, img, sqrt, pi)
              case None => NonFinite
              case Some(eff) => Printed(Values(eff))
  }

  /** With every source field in the file, a line number beyond the table
      raises IndexError. */
  lemma ReadInjectionDataLineOutOfRange(argv: seq<string>, table: Columns, sqrt: real -> real, pi: real, line: int)
    requires IsSqrt(sqrt) && |argv| == 4
    requires ParseInt(argv[2]) == Some(line) && ParseInt(argv[3]).Some?
    requires forall k :: 0 <= k < |SourceFields| ==> SourceFields[k] in table
    requires !Readable(table, "mass_1", line)
    ensures ReadInjectionData(argv, table, sqrt, pi) == Raised(IndexError)
  {
    assert SourceFields[0] == "mass_1";
    var r := ReadFields(table, SourceFields, line);
    assert r.Err?;
    var k :| 0 <= k < |SourceFields| && AllReadable(table, SourceFields[..k], line)
      && Field(table, SourceFields[k], line) == Err(r.error);
    assert SourceFields[k] in table;
  }

  /** Given a line number and an image number written as decimal arguments,
      the script prints the effective parameters of that image of the
      injection on that line (position by position in `PrintedValues`). */
  lemma ReadInjectionDataPrints(table: Columns, file: string, line: int, image: int,
                                s: Injection, img: LensedImage, sqrt: real -> real, pi: real, program: string)
    requires InjectionAt(table, line, s) && ImageAt(table, line, image, img)
    requires IsSqrt(sqrt) && img.magnification != 0.0
    ensures ReadInjectionData([program, file, IntToString(line), IntToString(image)], table, sqrt, pi)
      == Printed(Values(Effective(s, img, sqrt, pi).value))
  {
    var argv := [program, file, IntToString(line), IntToString(image)];
    IntToStringRoundTrip(line);
    IntToStringRoundTrip(image);
    assert ParseInt(argv[2]) == Some(line) && ParseInt(argv[3]) == Some(image);
    ReadInjectionAt(table, line, s);
    ReadImageAt(table, line, image, img);
  }

  /** The printed line of an image, position by position: the masses and
      spins, the effective distance, time and phase, then the angles. */
  lemma PrintedValues(s: Injection, img: LensedImage, sqrt: real -> real, pi: real)
    requires IsSqrt(sqrt) && img.magnification != 0.0
    ensures
      var values := Values(Effective(s, img, sqrt, pi).value);
      && values[0..4] == [s.mass1, s.mass2, s.a1, s.a2]
      && values[4] * sqrt(Abs(img.magnification)) == s.luminosityDistance
      && values[5] == s.geocentTime + img.timeDelay
      && values[6] * 2.0 == s.phase * 2.0 - pi * img.imageType
      && values[7..] == [s.iota, s.psi, s.ra, s.dec]
  {
  }

  /** A line holding `s` in every source field reads as `s`. */
  lemma ReadInjectionAt(table: Columns, line: int, s: Injection)
    requires InjectionAt(table, line, s)
    ensures ReadInjection(table, line) == Ok(s)
  {
    assert AllReadable(table, SourceFields, line);
    var v := ReadFields(table, SourceFields, line).value;
    assert v == Values(s);
  }

  /** A line holding `img` in the columns of image `image` reads as `img`. */
  lemma ReadImageAt(table: Columns, line: int, image: int, img: LensedImage)
    requires ImageAt(table, line, image, img)
    ensures ReadImage(table, line, image) == Ok(img)
  {
    var names := ImageFields(image);
    assert AllReadable(table, names, line) by {
      forall k | 0 <= k < |names| ensures Readable(table, names[k], line) {
        assert k == 0 || k == 1 || k == 2;
      }
    }
    var v := ReadFields(table, names, line).value;
    assert Field(table, names[0], line) == Ok(v[0]);
    assert Field(table, names[1], line) == Ok(v[1]);
    assert Field(table, names[2], line) == Ok(v[2]);
  }
}
