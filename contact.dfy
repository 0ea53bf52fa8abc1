/** The one record of the system (app/page.tsx, type `Contact`). */
module Contacts {

  datatype Contact = Contact(name: string, title: string, phone: string, email: string, url: string)

  /** True of a record every field of which is the empty string, the records `parseRaw`
      filters out (JavaScript's `||` on strings is true of any non-empty string). */
  predicate IsBlank(c: Contact) {
    c.name == [] && c.title == [] && c.phone == [] && c.email == [] && c.url == []
  }
}
