/** The redirects both web controllers share. */
module Views {
  /** The page shown when a user may not see what they asked for. */
  const AccessDenied := "redirect:/access-denied"

  /** The assignment list, where a request for a missing row or user leads. */
  const MyAssignments := "redirect:/assignments/my"
}
