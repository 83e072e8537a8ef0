/** The records of the careers-page builder: a company (tenant) with its
    ordered page sections, and the job postings shown on its page. */
module Types {

  datatype Option<T> = None | Some(value: T)

  /** The seven kinds of page section. */
  datatype SectionType = Header | About | Life | Team | Values | Jobs | Footer

  /** One typed content block of a company's page. `content` is a free-form
      key/value payload whose values nothing in the model reads. */
  datatype Section = Section(id: string, kind: SectionType, order: int, content: map<string, string>)

  datatype Status = Draft | Published

  datatype Theme = Theme(primaryColor: string, secondaryColor: string, accentColor: string, fontFamily: Option<string>)

  datatype SeoMeta = SeoMeta(title: Option<string>, description: Option<string>, keywords: Option<string>)

  /** A tenant: identity, publication status, branding and the ordered list
      of page sections. */
  datatype Company = Company(
    id: string,
    slug: string,
    name: string,
    status: Status,
    logoUrl: Option<string>,
    bannerUrl: Option<string>,
    seoMeta: Option<SeoMeta>,
    theme: Theme,
    sections: seq<Section>,
    ownerId: string,
    createdAt: string)

  /** The five job categories. */
  datatype JobType = FullTime | PartTime | Contract | Remote | Hybrid

  /** The string stored in a job row's `job_type` column. */
  function JobTypeName(t: JobType): (name: string)
    ensures name != ""
  {
    match t
    case FullTime => "full-time"
    case PartTime => "part-time"
    case Contract => "contract"
    case Remote => "remote"
    case Hybrid => "hybrid"
  }

  /** A job posting of one company. */
  datatype Job = Job(
    id: string,
    companyId: string,
    title: string,
    location: string,
    jobType: JobType,
    department: string,
    isActive: bool,
    createdAt: string)

  /** The record the filter controls hand to the career page: an empty field
      imposes no constraint. */
  datatype Criteria = Criteria(location: string, jobType: string, department: string, search: string)

  const NoCriteria := Criteria("", "", "", "")
}
