/**
 * The eligibility gate of the certificate download: the chain of early returns that
 * decides whether a PDF is produced, and the name it is offered under. Rendering the
 * PDF itself is not modelled.
 */
module CertificateController {
  import opened Wrappers
  import opened Enrollments
  import opened EnrollmentRepository
  import opened Requests

  const NotCompleted: string := "El curso no está completado al 100%"
  const CourseOrUserNotFound: string := "Curso o usuario no encontrado"
  const FilenamePrefix: string := "certificado-"
  const FilenameSuffix: string := ".pdf"

  /** The reply: a JSON error with its status, or a PDF attachment. */
  datatype DownloadResult =
    | Rejected(status: int, error: string)
    | Certificate(contentType: string, contentDisposition: string)

  /** `certificado-<courseId>.pdf`, from which the course id can be read back. */
  function CertificateFilename(courseId: string): (f: string)
    ensures |f| == |FilenamePrefix| + |courseId| + |FilenameSuffix|
    ensures f[..|FilenamePrefix|] == FilenamePrefix
    ensures f[|FilenamePrefix|..|f| - |FilenameSuffix|] == courseId
    ensures f[|f| - |FilenameSuffix|..] == FilenameSuffix
  {
    FilenamePrefix + courseId + FilenameSuffix
  }

  /** Distinct courses get distinct certificate names. */
  lemma CertificateFilenameInjective(a: string, b: string)
    requires CertificateFilename(a) == CertificateFilename(b)
    ensures a == b
  {
    var f := CertificateFilename(a);
    assert a == f[|FilenamePrefix|..|f| - |FilenameSuffix|];
  }

  /**
   * `download`, up to the start of the PDF: parameters, then the enrollment, then its
   * completion, then the course and the user. `courses` and `users` are the ids the two
   * lookups find.
   */
  function Download(studentId: QueryParam, courseId: QueryParam, table: Table, courses: set<string>, users: set<string>)
    : (r: DownloadResult)
    requires KeysMatch(table)
    ensures QueryString(studentId).None? || QueryString(courseId).None? ==> r == Rejected(400, MissingParameters)
    ensures QueryString(studentId).Some? && QueryString(courseId).Some? ==>
              var k := Key(studentId.value, courseId.value);
              && (k !in table ==> r == Rejected(404, EnrollmentNotFound))
              && (k in table && table[k].progress < 100 ==> r == Rejected(403, NotCompleted))
              && (k in table && table[k].progress >= 100 && (courseId.value !in courses || studentId.value !in users) ==>
                    r == Rejected(404, CourseOrUserNotFound))
    ensures r.Certificate? <==>
              && QueryString(studentId).Some? && QueryString(courseId).Some?
              && Key(studentId.value, courseId.value) in table
              && table[Key(studentId.value, courseId.value)].progress >= 100
              && courseId.value in courses && studentId.value in users
    ensures r.Certificate? ==>
              r.contentType == "application/pdf" &&
              r.contentDisposition == "attachment; filename=" + CertificateFilename(courseId.value)
  {
    var s, c := QueryString(studentId), QueryString(courseId);
    if s.None? || c.None? then Rejected(400, MissingParameters)
    else
      var enrollment := Lookup(table, s.value, c.value);
      if enrollment.None? then Rejected(404, EnrollmentNotFound)
      else if enrollment.value.progress < 100 then Rejected(403, NotCompleted)
      else if c.value !in courses || s.value !in users then Rejected(404, CourseOrUserNotFound)
      else Certificate("application/pdf", "attachment; filename=" + CertificateFilename(c.value))
  }
}
