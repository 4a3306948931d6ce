/** The advocate record both the page and the route work on. */
module Advocates {

  /** The dropdown value that means "no filter", on the page and in the
      route alike. */
  const All: string := "All"

  /** One advocate as the page component types it (page.tsx lines 5-13).
      Years of experience is a non-negative whole number. */
  datatype Advocate = Advocate(
    firstName: string,
    lastName: string,
    city: string,
    degree: string,
    specialties: seq<string>,
    yearsOfExperience: nat,
    phoneNumber: string
  )
}
