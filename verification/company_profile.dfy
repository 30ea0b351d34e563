/**
 * The company-profile data provider
 * (modules/company-profile/includes/class-provider.php): it turns the
 * company record loaded from JSON into the flat placeholder map a DOCX
 * template is filled from, formats lists as bullet lines, and names the
 * generated file.
 *
 * The decoded JSON is the `Company` record (`None` for the empty array
 * the provider keeps when the file is missing or does not decode). The
 * clock reading and `sanitize_title` are parameters.
 */
module CompanyProfile {
  import opened Results
  import opened PhpStrings

  datatype Address = Address(street: string, city: string, province: string, postalCode: string, country: string)

  datatype Cert = Cert(name: string, description: string, validUntil: string)

  /** A JSON value used as a list: an array of strings, or anything else. */
  datatype Listing = Items(items: seq<string>) | NotAList

  /** The `certifications` key: an array of certificates, or missing / not an array. */
  datatype CertListing = Certs(certs: seq<Cert>) | NoCerts

  datatype Company = Company(
    companyName: string, legalName: string, tagline: string,
    address: Address,
    phone: string, email: string, website: string,
    companyId: string, taxId: string, establishedDate: string,
    vision: string, mission: Listing, values: Listing,
    services: Listing, industries: Listing, employeeCount: string, offices: Listing,
    certifications: CertListing)

  // ---------------------------------------------------------------------------
  // Placeholders and layouts
  // ---------------------------------------------------------------------------

  /** The date placeholder the document generator expands: `${tanggal:<date>:<format>}`. */
  function DatePlaceholder(date: string, format: string): string {
    "${tanggal:" + date + ":" + format + "}"
  }

  /** `complete_address`: street, then `city, province postal_code`, then country, on three lines. */
  function CompleteAddress(a: Address): string {
    a.street + "\n" + a.city + ", " + a.province + " " + a.postalCode + "\n" + a.country
  }

  /** The three lines of the address layout come back out of `explode("\n", …)` when no field spans lines. */
  lemma CompleteAddressLines(a: Address)
    requires '\n' !in a.street && '\n' !in a.city && '\n' !in a.province && '\n' !in a.postalCode && '\n' !in a.country
    ensures Split(CompleteAddress(a), '\n') == [a.street, a.city + ", " + a.province + " " + a.postalCode, a.country]
  {
    var middle := a.city + ", " + a.province + " " + a.postalCode;
    var parts := [a.street, middle, a.country];
    assert '\n' !in middle by {
      assert forall c :: c in middle ==> c in a.city || c in ", " || c in a.province || c in " " || c in a.postalCode;
    }
    SplitJoin(parts, '\n');
    assert parts[1..] == [middle, a.country] && parts[1..][1..] == [a.country];
    assert Join("\n", parts[1..][1..]) == a.country;
    assert Join("\n", parts[1..]) == middle + "\n" + a.country;
    assert Join("\n", parts) == a.street + "\n" + (middle + "\n" + a.country);
    assert CompleteAddress(a) == a.street + "\n" + (middle + "\n" + a.country);
  }

  // ---------------------------------------------------------------------------
  // format_bullet_points and format_certifications
  // ---------------------------------------------------------------------------

  /** One bullet line: a bullet, a space and the trimmed item. */
  function Bullet(item: string): (r: string)
    ensures |r| >= 2 && r[..2] == "• "
    ensures '\n' !in item ==> '\n' !in r
  {
    var t := Trim(item);
    assert forall c :: c in "• " + t ==> c == '•' || c == ' ' || c in t;
    "• " + t
  }

  /** `format_bullet_points`: the empty string for a non-array, otherwise one bullet line per item joined by newlines. */
  function FormatBulletPoints(l: Listing): (r: string)
    ensures l.NotAList? || |l.items| == 0 ==> r == ""
  {
    match l
    case NotAList => ""
    case Items(items) => Join("\n", seq(|items|, i requires 0 <= i < |items| => Bullet(items[i])))
  }

  /** For newline-free items, the bullet list has exactly one line per item, each the bullet of that item. */
  lemma FormatBulletPointsLines(items: seq<string>)
    requires |items| > 0
    requires forall i :: 0 <= i < |items| ==> '\n' !in items[i]
    ensures |Split(FormatBulletPoints(Items(items)), '\n')| == |items|
    ensures forall i :: 0 <= i < |items| ==> Split(FormatBulletPoints(Items(items)), '\n')[i] == "• " + Trim(items[i])
  {
    var lines := seq(|items|, i requires 0 <= i < |items| => Bullet(items[i]));
    SplitJoin(lines, '\n');
  }

  /** One certificate line: `• name - description (Valid until: <date placeholder>)`. */
  function CertLine(c: Cert): (r: string)
    ensures |r| >= 2 && r[..2] == "• "
  {
    "• " + c.name + " - " + c.description + " (Valid until: " + DatePlaceholder(c.validUntil, "j F Y") + ")"
  }

  /** `format_certifications`: the empty string when the key is missing or not an array, otherwise one line per certificate. */
  function FormatCertifications(l: CertListing): (r: string)
    ensures l.NoCerts? || |l.certs| == 0 ==> r == ""
  {
    match l
    case NoCerts => ""
    case Certs(certs) => Join("\n", seq(|certs|, i requires 0 <= i < |certs| => CertLine(certs[i])))
  }

  /** For certificates whose fields have no newline, there is exactly one line per certificate. */
  lemma FormatCertificationsLines(certs: seq<Cert>)
    requires |certs| > 0
    requires forall i :: 0 <= i < |certs| ==> '\n' !in certs[i].name + certs[i].description + certs[i].validUntil
    ensures |Split(FormatCertifications(Certs(certs)), '\n')| == |certs|
    ensures forall i :: 0 <= i < |certs| ==> Split(FormatCertifications(Certs(certs)), '\n')[i] == CertLine(certs[i])
  {
    var lines := seq(|certs|, i requires 0 <= i < |certs| => CertLine(certs[i]));
    forall i | 0 <= i < |certs|
      ensures '\n' !in lines[i]
    {
      var c := certs[i];
      assert '\n' !in c.name && '\n' !in c.description && '\n' !in c.validUntil by {
        assert forall x :: x in c.name || x in c.description || x in c.validUntil ==> x in c.name + c.description + c.validUntil;
      }
      assert forall x :: x in lines[i] ==>
        x in "• " || x in c.name || x in " - " || x in c.description || x in " (Valid until: ${tanggal:" || x in c.validUntil || x in ":j F Y})";
    }
    SplitJoin(lines, '\n');
  }

  // ---------------------------------------------------------------------------
  // get_data and get_output_filename
  // ---------------------------------------------------------------------------

  /**
   * The placeholder array `get_data` returns, one field per key
   * (`company_name`, `legal_name`, …, `generated_by_login`).
   */
  datatype Placeholders = Placeholders(
    companyName: string, legalName: string, tagline: string,
    street: string, city: string, province: string, postalCode: string, country: string,
    completeAddress: string,
    phoneNumber: string, emailAddress: string, websiteUrl: string,
    companyRegistrationId: string, taxRegistrationId: string, dateEstablished: string,
    companyVision: string, companyMission: string, companyValues: string,
    services: string, targetIndustries: string, employeeCount: string, officeLocations: string,
    certifications: string, generatedDate: string,
    generatedByEmail: string, generatedByRole: string, generatedById: string, generatedByLogin: string)

  /**
   * `get_data`: `None` (the empty array) for empty data; otherwise the
   * placeholders with the plain fields copied, the address laid out, the
   * lists formatted as bullets and the dates as placeholders. `now` is
   * `date('Y-m-d H:i:s')`.
   */
  function GetData(data: Option<Company>, now: string): (r: Option<Placeholders>)
    ensures data.None? <==> r.None?
    ensures data.Some? ==>
      var c := data.value;
      var p := r.value;
      && p.companyName == c.companyName && p.legalName == c.legalName && p.tagline == c.tagline
      && p.street == c.address.street && p.city == c.address.city && p.province == c.address.province
      && p.postalCode == c.address.postalCode && p.country == c.address.country
      && p.completeAddress == CompleteAddress(c.address)
      && p.phoneNumber == c.phone && p.emailAddress == c.email && p.websiteUrl == c.website
      && p.companyRegistrationId == c.companyId && p.taxRegistrationId == c.taxId
      && p.dateEstablished == DatePlaceholder(c.establishedDate, "j F Y")
      && p.companyVision == c.vision && p.employeeCount == c.employeeCount
      && p.companyMission == FormatBulletPoints(c.mission) && p.companyValues == FormatBulletPoints(c.values)
      && p.services == FormatBulletPoints(c.services) && p.targetIndustries == FormatBulletPoints(c.industries)
      && p.officeLocations == FormatBulletPoints(c.offices)
      && p.certifications == FormatCertifications(c.certifications)
      && p.generatedDate == DatePlaceholder(now, "j F Y H:i")
      && p.generatedByEmail == "${user:email}" && p.generatedByRole == "${user:role}"
      && p.generatedById == "${user:ID}" && p.generatedByLogin == "${user:user_login}"
  {
    match data
    case None => None
    case Some(c) =>
      Some(Placeholders(
        c.companyName, c.legalName, c.tagline,
        c.address.street, c.address.city, c.address.province, c.address.postalCode, c.address.country,
        CompleteAddress(c.address),
        c.phone, c.email, c.website,
        c.companyId, c.taxId, DatePlaceholder(c.establishedDate, "j F Y"),
        c.vision, FormatBulletPoints(c.mission), FormatBulletPoints(c.values),
        FormatBulletPoints(c.services), FormatBulletPoints(c.industries), c.employeeCount, FormatBulletPoints(c.offices),
        FormatCertifications(c.certifications), DatePlaceholder(now, "j F Y H:i"),
        "${user:email}", "${user:role}", "${user:ID}", "${user:user_login}"))
  }

  /**
   * `get_output_filename`: `company-profile-<today>`, prefixed by the
   * sanitized company name and a dash when there is data. `today` is
   * `date('Y-m-d')`.
   */
  function OutputFilename(data: Option<Company>, sanitizeTitle: string -> string, today: string): (r: string)
    ensures data.None? ==> r == "company-profile-" + today
    ensures data.Some? ==> r == sanitizeTitle(data.value.companyName) + "-company-profile-" + today
  {
    match data
    case None => "company-profile-" + today
    case Some(c) => sanitizeTitle(c.companyName) + "-company-profile-" + today
  }

  /** Whatever the data, the file name ends with `company-profile-<today>`. */
  lemma OutputFilenameSuffix(data: Option<Company>, sanitizeTitle: string -> string, today: string)
    ensures var r := OutputFilename(data, sanitizeTitle, today);
      var suffix := "company-profile-" + today;
      |r| >= |suffix| && r[|r| - |suffix|..] == suffix
  {
    var r := OutputFilename(data, sanitizeTitle, today);
    var suffix := "company-profile-" + today;
    if data.Some? {
      var p := sanitizeTitle(data.value.companyName) + "-";
      assert r == p + suffix;
      assert r[|p|..] == suffix;
    } else {
      assert r[0..] == r;
    }
  }
}
