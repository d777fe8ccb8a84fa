/** The cached lookup record and its clipboard/share text. */
module CarModel {
  import opened Wrappers
  import opened Text

  /** One cached lookup: the store assigns `id`; `details` is the extracted text. */
  datatype Car = Car(id: int, registration: string, details: string)

  const RegistrationLabel: string := "Registration: "
  const DetailsLabel: string := "\nDetails: "

  /** `Car.share()`: the registration and the details under two labels. */
  function Share(car: Car): string {
    RegistrationLabel + car.registration + DetailsLabel + car.details
  }

  /**
   * Reads a share text back into (registration, details): the registration
   * runs up to the first line break, which must start the details label.
   */
  function ParseShare(text: string): Option<(string, string)> {
    if !StartsWith(text, RegistrationLabel) then None
    else
      var rest := text[|RegistrationLabel|..];
      var k := IndexOf(rest, '\n');
      if StartsWith(rest[k..], DetailsLabel) then Some((rest[..k], rest[k + |DetailsLabel|..]))
      else None
  }

  /** The share text is the two labels plus the two fields, and nothing else. */
  lemma ShareLength(car: Car)
    ensures |Share(car)| == 24 + |car.registration| + |car.details|
  {
  }

  /** The share text ignores the id: two cars with the same fields share alike. */
  lemma ShareIgnoresId(a: Car, b: Car)
    requires a.registration == b.registration && a.details == b.details
    ensures Share(a) == Share(b)
  {
  }

  /** The share text begins with the registration label and ends with the details. */
  lemma ShareFrame(car: Car)
    ensures StartsWith(Share(car), RegistrationLabel + car.registration + DetailsLabel)
    ensures Share(car)[|Share(car)| - |car.details|..] == car.details
  {
  }

  /** With a single-line registration, both fields come back out of the share text. */
  lemma ShareRoundTrip(car: Car)
    requires '\n' !in car.registration
    ensures ParseShare(Share(car)) == Some((car.registration, car.details))
  {
    var text := Share(car);
    var reg := car.registration;
    assert text[..|RegistrationLabel|] == RegistrationLabel;
    var rest := text[|RegistrationLabel|..];
    assert rest == reg + DetailsLabel + car.details;
    assert rest[|reg|] == '\n';
    assert rest[..|reg|] == reg;
    assert IndexOf(rest, '\n') == |reg|;
    assert rest[|reg|..] == DetailsLabel + car.details;
    assert rest[|reg| + |DetailsLabel|..] == car.details;
  }
}
