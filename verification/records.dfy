/** The job posting record: `JobData` with its 23 string fields, and the 21 fields
    the detail-page extraction produces before the caller's link and job type are added. */
module Records {

  /** One posting as stored and returned; `link` is the unique key. */
  datatype JobRecord = JobRecord(
    link: string,
    jobType: string,
    title: string,
    company: string,
    salary: string,
    location: string,
    experience: string,
    level: string,
    workingForm: string,
    deadline: string,
    shift: string,
    degree: string,
    age: string,
    quantity: string,
    field: string,
    description: string,
    requirement: string,
    benefit: string,
    companyLogo: string,
    companySize: string,
    companyHeadquarters: string,
    contactName: string,
    contactPhone: string)

  /** What a detail page yields on its own: every field except `link` and `jobType`. */
  datatype DetailFields = DetailFields(
    title: string,
    company: string,
    salary: string,
    location: string,
    experience: string,
    level: string,
    workingForm: string,
    deadline: string,
    shift: string,
    degree: string,
    age: string,
    quantity: string,
    field: string,
    description: string,
    requirement: string,
    benefit: string,
    companyLogo: string,
    companySize: string,
    companyHeadquarters: string,
    contactName: string,
    contactPhone: string)

  /** A link discovered on a listing page, tagged with the job type it was listed under. */
  datatype JobLink = JobLink(link: string, jobType: string)

  /** The extracted part of a record. */
  function DetailsOf(r: JobRecord): DetailFields {
    DetailFields(r.title, r.company, r.salary, r.location, r.experience, r.level,
                 r.workingForm, r.deadline, r.shift, r.degree, r.age, r.quantity, r.field,
                 r.description, r.requirement, r.benefit, r.companyLogo, r.companySize,
                 r.companyHeadquarters, r.contactName, r.contactPhone)
  }

  /** `{ link, job_type: jobType, ...data }`: the caller's link and job type next to the
      extracted fields; the extracted part is carried over unchanged. */
  function Assemble(link: string, jobType: string, d: DetailFields): (r: JobRecord)
    ensures r.link == link && r.jobType == jobType
    ensures DetailsOf(r) == d
  {
    JobRecord(link, jobType, d.title, d.company, d.salary, d.location, d.experience, d.level,
              d.workingForm, d.deadline, d.shift, d.degree, d.age, d.quantity, d.field,
              d.description, d.requirement, d.benefit, d.companyLogo, d.companySize,
              d.companyHeadquarters, d.contactName, d.contactPhone)
  }

  /** Splitting a record into key, type and extracted fields and assembling it again gives it back. */
  lemma AssembleDetailsOf(r: JobRecord)
    ensures Assemble(r.link, r.jobType, DetailsOf(r)) == r
  {
  }

  /** Every field empty: what a record holds when nothing at all was found. */
  const EmptyDetails := DetailFields("", "", "", "", "", "", "", "", "", "", "", "", "", "", "", "", "", "", "", "", "")
}
