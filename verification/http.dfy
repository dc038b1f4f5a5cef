/** HTTP methods as the code distinguishes them (src/http/methods.h). */
module Http {
  datatype Verb = GET | POST | PUT | DEL | OPTIONS | HEAD | PATCH | NULL
}
